/**
 * The rule store, seen as what the bot relies on: a table from
 * `(namespace, domain)` to a fixer, where the namespace is the Discord
 * guild. Put overwrites, Get answers `None` for an absent key, Delete
 * removes one key, and List returns one namespace.
 *
 * A store call can also fail (a bbolt transaction error, say); whether it
 * does is not decided here but handed to each command as an `Outcome`.
 * A failed call changes nothing, as a rolled-back transaction would.
 */
module RuleStore {
  import opened Results
  import opened Fixers

  type Key = (string, string)
  type Table = map<Key, Fixer>

  /** What the store answered to one call: success, or the error's text. */
  datatype Outcome = Done | Fail(msg: string)

  /** Answers to successive store calls; calls beyond the list succeed. */
  function OutcomeAt(io: seq<Outcome>, k: nat): Outcome {
    if k < |io| then io[k] else Done
  }

  /** `t` and `u` agree on every key other than `key`. */
  predicate SameExcept(t: Table, u: Table, key: Key) {
    && (forall k :: k in t && k != key ==> k in u && u[k] == t[k])
    && (forall k :: k in u && k != key ==> k in t)
  }

  /** The rules of every namespace other than `ns`. */
  function Outside(t: Table, ns: string): (o: Table)
    ensures forall k :: k in o <==> k in t && k.0 != ns
    ensures forall k :: k in o ==> o[k] == t[k]
  {
    map k | k in t && k.0 != ns :: t[k]
  }

  /** `t` and `u` agree on every key outside namespace `ns`. */
  predicate SameOutside(t: Table, u: Table, ns: string) {
    Outside(t, ns) == Outside(u, ns)
  }

  /** Agreeing outside `ns` means every other namespace answers Get alike. */
  lemma SameOutsideGet(t: Table, u: Table, ns: string, other: string, domain: string)
    requires SameOutside(t, u, ns) && other != ns
    ensures Get(t, other, domain) == Get(u, other, domain)
  {
    var k := (other, domain);
    assert k in t <==> k in Outside(t, ns);
    assert k in u <==> k in Outside(u, ns);
  }

  /** `Put(namespace, domain, f)`: stores `f`, replacing what was there. */
  function Put(t: Table, ns: string, domain: string, f: Fixer): Table {
    t[(ns, domain) := f]
  }

  /** A Put holds `f` under its key, leaves every other key as it was, and grows the table only for a new key. */
  lemma PutChangesOneKey(t: Table, ns: string, domain: string, f: Fixer)
    ensures var u := Put(t, ns, domain, f);
      && (ns, domain) in u && u[(ns, domain)] == f
      && SameExcept(t, u, (ns, domain))
      && |u| == if (ns, domain) in t then |t| else |t| + 1
  {
  }

  /** `Get(namespace, domain)`: the stored fixer, or `None` (Go's nil fixer). */
  function Get(t: Table, ns: string, domain: string): (r: Option<Fixer>)
    ensures r.Some? <==> (ns, domain) in t
    ensures r.Some? ==> r.value == t[(ns, domain)]
  {
    if (ns, domain) in t then Some(t[(ns, domain)]) else None
  }

  /** `Delete(namespace, domain)`: removes the key if present. */
  function Delete(t: Table, ns: string, domain: string): Table {
    t - {(ns, domain)}
  }

  /** A Delete drops its key, leaves every other key as it was, and shrinks the table only if the key was there. */
  lemma DeleteChangesOneKey(t: Table, ns: string, domain: string)
    ensures var u := Delete(t, ns, domain);
      && (ns, domain) !in u
      && SameExcept(t, u, (ns, domain))
      && |u| == if (ns, domain) in t then |t| - 1 else |t|
  {
  }

  /** `List(namespace)`: the namespace's rules, keyed by domain. */
  function List(t: Table, ns: string): (m: map<string, Fixer>)
    ensures forall d :: d in m <==> (ns, d) in t
    ensures forall d :: d in m ==> m[d] == t[(ns, d)]
  {
    map k | k in t && k.0 == ns :: k.1 := t[k]
  }

  /** A Put or Delete in namespace `ns` touches nothing outside it. */
  lemma WritesStayInNamespace(t: Table, ns: string, domain: string, f: Fixer)
    ensures SameOutside(t, Put(t, ns, domain, f), ns)
    ensures SameOutside(t, Delete(t, ns, domain), ns)
  {
    assert Outside(t, ns) == Outside(Put(t, ns, domain, f), ns);
    assert Outside(t, ns) == Outside(Delete(t, ns, domain), ns);
  }

  /** A stored rule is found again under the same key. */
  lemma GetAfterPut(t: Table, ns: string, domain: string, f: Fixer)
    ensures Get(Put(t, ns, domain, f), ns, domain) == Some(f)
  {
  }

  /** Putting twice under one key keeps only the second rule. */
  lemma PutOverwrites(t: Table, ns: string, domain: string, f: Fixer, g: Fixer)
    ensures Put(Put(t, ns, domain, f), ns, domain, g) == Put(t, ns, domain, g)
  {
  }

  /** A deleted key is absent, and deleting it again changes nothing. */
  lemma DeleteIdempotent(t: Table, ns: string, domain: string)
    ensures Get(Delete(t, ns, domain), ns, domain) == None
    ensures Delete(Delete(t, ns, domain), ns, domain) == Delete(t, ns, domain)
  {
  }

  /** Delete undoes a Put of a key that was absent. */
  lemma DeleteUndoesPut(t: Table, ns: string, domain: string, f: Fixer)
    requires (ns, domain) !in t
    ensures Delete(Put(t, ns, domain, f), ns, domain) == t
  {
  }

  /** Writes in one namespace are invisible when listing another. */
  lemma NamespacesAreIsolated(t: Table, ns: string, other: string, domain: string, f: Fixer)
    requires ns != other
    ensures List(Put(t, ns, domain, f), other) == List(t, other)
    ensures List(Delete(t, ns, domain), other) == List(t, other)
  {
  }
}
