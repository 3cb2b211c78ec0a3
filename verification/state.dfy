/** The client-side cache of server state: an insertion-ordered map per kind of
    object with the time of its last change, and the rules that key sessions,
    kernels and terminals. The lock around each map is left out: every
    operation is one step on an immutable value, and the clock is a
    parameter. */
module State {

  import opened Wrappers
  import Client
  import Resp

  // ---------------------------------------------------------------------------
  // Insertion-ordered map (`OrderMap`)

  /** Keys in insertion order and the value of each. */
  datatype OrderMap<K(==,!new), V> = OrderMap(keys: seq<K>, values: map<K, V>)

  /** The keys are distinct and are exactly the keys of the values. */
  ghost predicate Valid<K(!new), V>(m: OrderMap<K, V>) {
    && (forall i, j :: 0 <= i < j < |m.keys| ==> m.keys[i] != m.keys[j])
    && (forall k :: k in m.values <==> k in m.keys)
  }

  function Lookup<K(==,!new), V>(m: OrderMap<K, V>, k: K): Option<V> {
    if k in m.values then Some(m.values[k]) else None
  }

  /** `OrderMap::insert`: a present key keeps its place and takes the new
      value, a new key goes last; the previous value is returned. */
  function MapInsert<K(==,!new), V>(m: OrderMap<K, V>, k: K, v: V): (r: (OrderMap<K, V>, Option<V>))
    requires Valid(m)
    ensures Valid(r.0)
    ensures r.1 == Lookup(m, k)
    ensures Lookup(r.0, k) == Some(v)
    ensures forall other :: other != k ==> Lookup(r.0, other) == Lookup(m, other)
    ensures r.0.keys == if k in m.values then m.keys else m.keys + [k]
  {
    var previous := Lookup(m, k);
    if k in m.values then (OrderMap(m.keys, m.values[k := v]), previous)
    else (OrderMap(m.keys + [k], m.values[k := v]), previous)
  }

  /** The pairs inserted one after the other, in order. */
  function InsertAll<K(==,!new), V>(m: OrderMap<K, V>, pairs: seq<(K, V)>): (r: OrderMap<K, V>)
    requires Valid(m)
    ensures Valid(r)
    ensures forall k :: Lookup(r, k) == (if LastValue(pairs, k).Some? then LastValue(pairs, k) else Lookup(m, k))
    decreases |pairs|
  {
    if |pairs| == 0 then m
    else
      var front := InsertAll(m, pairs[..|pairs| - 1]);
      MapInsert(front, pairs[|pairs| - 1].0, pairs[|pairs| - 1].1).0
  }

  /** The value of the last pair with key `k`: a reference definition of what
      inserting the pairs leaves behind. */
  function LastValue<K(==,!new), V>(pairs: seq<(K, V)>, k: K): (r: Option<V>)
    ensures r.None? <==> forall i :: 0 <= i < |pairs| ==> pairs[i].0 != k
    ensures r.Some? ==>
      exists i ::
        && 0 <= i < |pairs| && pairs[i] == (k, r.value)
        && forall j :: i < j < |pairs| ==> pairs[j].0 != k
    decreases |pairs|
  {
    if |pairs| == 0 then None
    else if pairs[|pairs| - 1].0 == k then Some(pairs[|pairs| - 1].1)
    else LastValue(pairs[..|pairs| - 1], k)
  }

  // ---------------------------------------------------------------------------
  // The cache (`Cached`)

  /** `Cached`: the map and the time, in milliseconds, of its last change. */
  datatype Cached<K(==,!new), V> = Cached(entries: OrderMap<K, V>, lastUpdated: nat)

  /** `Cached::default`: empty, never updated. */
  function Empty<K(==,!new), V>(): (c: Cached<K, V>)
    ensures Valid(c.entries) && c.entries.keys == [] && c.lastUpdated == 0
    ensures forall k :: Get(c, k).None?
  {
    Cached(OrderMap([], map[]), 0)
  }

  /** `get`: a copy of the value under `k`, if any. */
  function Get<K(==,!new), V>(c: Cached<K, V>, k: K): (r: Option<V>)
    ensures r.Some? <==> k in c.entries.values
  {
    Lookup(c.entries, k)
  }

  /** `clear`: nothing left, stamped with the current time. */
  function Clear<K(==,!new), V>(c: Cached<K, V>, now: nat): (r: Cached<K, V>)
    ensures Valid(r.entries) && r.entries.keys == []
    ensures forall k :: Get(r, k).None?
    ensures r.lastUpdated == now
  {
    Cached(OrderMap([], map[]), now)
  }

  /** `insert`: the previous value under `k` is returned, `k` now holds `v`,
      every other key is untouched, and the time is stamped. */
  function Insert<K(==,!new), V>(c: Cached<K, V>, k: K, v: V, now: nat): (r: (Cached<K, V>, Option<V>))
    requires Valid(c.entries)
    ensures Valid(r.0.entries)
    ensures r.1 == Get(c, k)
    ensures Get(r.0, k) == Some(v)
    ensures forall other :: other != k ==> Get(r.0, other) == Get(c, other)
    ensures r.0.lastUpdated == now
  {
    var (m, previous) := MapInsert(c.entries, k, v);
    (Cached(m, now), previous)
  }

  /** `update`: the map is replaced by the pairs, the last pair of a key
      winning, and the time is stamped. */
  function Update<K(==,!new), V>(c: Cached<K, V>, pairs: seq<(K, V)>, now: nat): (r: Cached<K, V>)
    ensures Valid(r.entries)
    ensures forall k :: Get(r, k) == LastValue(pairs, k)
    ensures forall k :: k in r.entries.keys <==> exists i :: 0 <= i < |pairs| && pairs[i].0 == k
    ensures r.lastUpdated == now
  {
    var m := InsertAll(OrderMap([], map[]), pairs);
    assert forall k :: k in m.keys <==> LastValue(pairs, k).Some?;
    Cached(m, now)
  }

  /** What an update leaves does not depend on what was cached before. */
  lemma UpdateForgetsPrevious<K(!new), V>(c1: Cached<K, V>, c2: Cached<K, V>, pairs: seq<(K, V)>, now: nat)
    ensures Update(c1, pairs, now) == Update(c2, pairs, now)
  {
  }

  /** Inserting under a new key puts it last; a present key keeps its place. */
  lemma InsertKeepsOrder<K(!new), V>(c: Cached<K, V>, k: K, v: V, now: nat)
    requires Valid(c.entries)
    ensures Get(c, k).Some? ==> Insert(c, k, v, now).0.entries.keys == c.entries.keys
    ensures Get(c, k).None? ==> Insert(c, k, v, now).0.entries.keys == c.entries.keys + [k]
  {
  }

  /** The unit test: nothing under a key of an empty cache, then the inserted
      value. */
  lemma InsertGetExample(key: string, value: int, now: nat)
    ensures Get(Empty<string, int>(), key).None?
    ensures var (c, previous) := Insert(Empty<string, int>(), key, value, now);
      previous.None? && Get(c, key) == Some(value)
  {
  }

  // ---------------------------------------------------------------------------
  // Keys of the cached objects (`State`)

  /** A session's key: its own id, else its kernel's. */
  function SessionKey(s: Resp.Session): (k: Option<Resp.Uuid>)
    ensures s.id.Some? ==> k == s.id
    ensures s.id.None? ==> (k.Some? <==> s.kernel.Some?)
    ensures s.id.None? && s.kernel.Some? ==> k == Some(s.kernel.value.id)
  {
    match s.id
    case Some(id) => Some(id)
    case None =>
      match s.kernel
      case Some(kernel) => Some(kernel.id)
      case None => None
  }

  /** The keyed sessions of a listing: those with a key, in order. */
  function KeyedSessions(sessions: seq<Resp.Session>): (r: seq<(Resp.Uuid, Resp.Session)>)
    ensures |r| <= |sessions|
    ensures forall i :: 0 <= i < |r| ==> SessionKey(r[i].1) == Some(r[i].0) && r[i].1 in sessions
    ensures forall i :: 0 <= i < |sessions| && SessionKey(sessions[i]).Some? ==>
      (SessionKey(sessions[i]).value, sessions[i]) in r
    decreases |sessions|
  {
    if |sessions| == 0 then []
    else
      var rest := KeyedSessions(sessions[1..]);
      assert forall i :: 1 <= i < |sessions| ==> sessions[i] == sessions[1..][i - 1];
      match SessionKey(sessions[0])
      case Some(id) => [(id, sessions[0])] + rest
      case None => rest
  }

  /** Kernels are keyed by their id. */
  function KeyedKernels(kernels: seq<Resp.Kernel>): (r: seq<(Resp.Uuid, Resp.Kernel)>)
    ensures |r| == |kernels|
    ensures forall i :: 0 <= i < |r| ==> r[i] == (kernels[i].id, kernels[i])
  {
    seq(|kernels|, i requires 0 <= i < |kernels| => (kernels[i].id, kernels[i]))
  }

  /** Terminals are keyed by their name. */
  function KeyedTerminals(terminals: seq<Resp.Terminal>): (r: seq<(string, Resp.Terminal)>)
    ensures |r| == |terminals|
    ensures forall i :: 0 <= i < |r| ==> r[i] == (terminals[i].name, terminals[i])
  {
    seq(|terminals|, i requires 0 <= i < |terminals| => (terminals[i].name, terminals[i]))
  }

  /** The three caches; the client they are filled from is left out. */
  datatype State = State(
    kernels: Cached<Resp.Uuid, Resp.Kernel>,
    sessions: Cached<Resp.Uuid, Resp.Session>,
    terminals: Cached<string, Resp.Terminal>)

  /** `update_sessions`: on a listing, the sessions cache becomes the keyed
      sessions; a failed listing changes nothing and is passed on. */
  function UpdateSessions(st: State, listed: Result<seq<Resp.Session>, Client.RestError>, now: nat): (r: (State, Result<(), Client.RestError>))
    ensures r.0.kernels == st.kernels && r.0.terminals == st.terminals
    ensures listed.Err? ==> r == (st, Err(listed.error))
    ensures listed.Ok? ==> r.1 == Ok(()) && r.0.sessions.lastUpdated == now
    ensures listed.Ok? ==> forall id :: Get(r.0.sessions, id) == LastValue(KeyedSessions(listed.value), id)
  {
    match listed
    case Err(e) => (st, Err(e))
    case Ok(sessions) => (st.(sessions := Update(st.sessions, KeyedSessions(sessions), now)), Ok(()))
  }

  /** A listed session without an id or a kernel is not cached; one with an
      id is cached under it unless a later session claims the same key. */
  lemma SessionKeying(st: State, sessions: seq<Resp.Session>, now: nat)
    ensures var c := UpdateSessions(st, Ok(sessions), now).0.sessions;
      forall id :: Get(c, id).Some? ==> SessionKey(Get(c, id).value) == Some(id) && Get(c, id).value in sessions
  {
    var pairs := KeyedSessions(sessions);
    forall id | LastValue(pairs, id).Some?
      ensures SessionKey(LastValue(pairs, id).value) == Some(id) && LastValue(pairs, id).value in sessions
    {
      var i :| 0 <= i < |pairs| && pairs[i] == (id, LastValue(pairs, id).value)
        && forall j :: i < j < |pairs| ==> pairs[j].0 != id;
    }
  }

  /** `update_kernels`: kernels cached under their ids. */
  function UpdateKernels(st: State, listed: Result<seq<Resp.Kernel>, Client.RestError>, now: nat): (r: (State, Result<(), Client.RestError>))
    ensures r.0.sessions == st.sessions && r.0.terminals == st.terminals
    ensures listed.Err? ==> r == (st, Err(listed.error))
    ensures listed.Ok? ==> r.1 == Ok(()) && r.0.kernels.lastUpdated == now
    ensures listed.Ok? ==> forall id :: Get(r.0.kernels, id) == LastValue(KeyedKernels(listed.value), id)
  {
    match listed
    case Err(e) => (st, Err(e))
    case Ok(kernels) => (st.(kernels := Update(st.kernels, KeyedKernels(kernels), now)), Ok(()))
  }

  /** `update_terminals`: terminals cached under their names. */
  function UpdateTerminals(st: State, listed: Result<seq<Resp.Terminal>, Client.RestError>, now: nat): (r: (State, Result<(), Client.RestError>))
    ensures r.0.kernels == st.kernels && r.0.sessions == st.sessions
    ensures listed.Err? ==> r == (st, Err(listed.error))
    ensures listed.Ok? ==> r.1 == Ok(()) && r.0.terminals.lastUpdated == now
    ensures listed.Ok? ==> forall name :: Get(r.0.terminals, name) == LastValue(KeyedTerminals(listed.value), name)
  {
    match listed
    case Err(e) => (st, Err(e))
    case Ok(terminals) => (st.(terminals := Update(st.terminals, KeyedTerminals(terminals), now)), Ok(()))
  }

  /** Every listed kernel is cached, under its own id, unless a later kernel
      has the same id. */
  lemma KernelsCachedById(st: State, kernels: seq<Resp.Kernel>, now: nat)
    ensures var c := UpdateKernels(st, Ok(kernels), now).0.kernels;
      && (forall i :: 0 <= i < |kernels| ==> Get(c, kernels[i].id).Some?)
      && (forall id :: Get(c, id).Some? ==> Get(c, id).value.id == id && Get(c, id).value in kernels)
  {
    var pairs := KeyedKernels(kernels);
    KeyedKernelsListed(kernels);
    KeyedKernelsOwnId(kernels);
    var c := UpdateKernels(st, Ok(kernels), now).0.kernels;
    assert forall id :: Get(c, id) == LastValue(pairs, id);
  }

  /** Every listed kernel's id finds a kernel among the keyed pairs. */
  lemma KeyedKernelsListed(kernels: seq<Resp.Kernel>)
    ensures forall i :: 0 <= i < |kernels| ==> LastValue(KeyedKernels(kernels), kernels[i].id).Some?
  {
    var pairs := KeyedKernels(kernels);
    forall i | 0 <= i < |kernels|
      ensures LastValue(pairs, kernels[i].id).Some?
    {
      assert pairs[i].0 == kernels[i].id;
    }
  }

  /** The kernel found under an id among the keyed pairs is a listed kernel with that id. */
  lemma KeyedKernelsOwnId(kernels: seq<Resp.Kernel>)
    ensures forall id :: LastValue(KeyedKernels(kernels), id).Some? ==>
      LastValue(KeyedKernels(kernels), id).value.id == id && LastValue(KeyedKernels(kernels), id).value in kernels
  {
    var pairs := KeyedKernels(kernels);
    forall id | LastValue(pairs, id).Some?
      ensures LastValue(pairs, id).value.id == id && LastValue(pairs, id).value in kernels
    {
      var i :| 0 <= i < |pairs| && pairs[i] == (id, LastValue(pairs, id).value)
        && forall j :: i < j < |pairs| ==> pairs[j].0 != id;
      assert kernels[i] == LastValue(pairs, id).value;
    }
  }

  /** `refresh_all`: the three listings run side by side; each cache whose
      listing succeeded is replaced, and the first failure in the order
      kernels, sessions, terminals is reported. */
  function RefreshAll(
    st: State,
    kernels: Result<seq<Resp.Kernel>, Client.RestError>,
    sessions: Result<seq<Resp.Session>, Client.RestError>,
    terminals: Result<seq<Resp.Terminal>, Client.RestError>,
    now: nat): (r: (State, Result<(), Client.RestError>))
    ensures r.0.kernels == UpdateKernels(st, kernels, now).0.kernels
    ensures r.0.sessions == UpdateSessions(st, sessions, now).0.sessions
    ensures r.0.terminals == UpdateTerminals(st, terminals, now).0.terminals
    ensures r.1.Ok? <==> kernels.Ok? && sessions.Ok? && terminals.Ok?
    ensures kernels.Err? ==> r.1 == Err(kernels.error)
    ensures kernels.Ok? && sessions.Err? ==> r.1 == Err(sessions.error)
    ensures kernels.Ok? && sessions.Ok? && terminals.Err? ==> r.1 == Err(terminals.error)
  {
    var (s1, k) := UpdateKernels(st, kernels, now);
    var (s2, s) := UpdateSessions(s1, sessions, now);
    var (s3, t) := UpdateTerminals(s2, terminals, now);
    var result := if k.Err? then k else if s.Err? then s else t;
    (s3, result)
  }
}
