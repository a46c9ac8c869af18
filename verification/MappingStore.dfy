// internal/mapping/store.go: the mutable store of stub mappings and the immutable
// snapshots, with hash indexes, that it publishes after every change.
module MappingStore {
  import opened Wrappers
  import opened Matching

  datatype Scenario = Scenario(name: string, requiredState: string, newState: string)

  // The part of a response definition that recordings write. json marks a JSON body.
  datatype ResponseDefinition = ResponseDefinition(status: int, headers: MultiMap, body: string, json: bool)

  datatype Mapping = Mapping(id: string, priority: int, scenario: Scenario, request: RequestPattern,
                             response: ResponseDefinition,
                             sequence: nat)

  datatype IndexKey = IndexKey(httpMethod: string, target: string)

  type Index = map<IndexKey, seq<Mapping>>

  datatype Snapshot = Snapshot(
    mappings: seq<Mapping>, byID: map<string, Mapping>, byExactURL: Index, byExactPath: Index,
    fallback: seq<Mapping>, hasScenarios: bool)

  // ---------- What a snapshot is, as a function of the stored mappings ----------

  function Filter(ms: seq<Mapping>, p: Mapping -> bool): (r: seq<Mapping>) {
    if |ms| == 0 then []
    else Filter(ms[..|ms| - 1], p) + if p(ms[|ms| - 1]) then [ms[|ms| - 1]] else []
  }

  // The mappings of the ids in order; an id without a mapping is skipped.
  function Listed(order: seq<string>, byID: map<string, Mapping>): (ms: seq<Mapping>) {
    if |order| == 0 then []
    else
      var last := order[|order| - 1];
      Listed(order[..|order| - 1], byID) + if last in byID then [byID[last]] else []
  }

  function URLKey(m: Mapping): (r: Option<IndexKey>) {
    if m.request.url != "" then Some(IndexKey(m.request.httpMethod, m.request.url)) else None
  }

  function PathKey(m: Mapping): (r: Option<IndexKey>) {
    if m.request.url == "" && m.request.urlPath != ""
      then Some(IndexKey(m.request.httpMethod, m.request.urlPath)) else None
  }

  predicate IsFallback(m: Mapping) { m.request.url == "" && m.request.urlPath == "" }

  function Bucket(index: Index, key: IndexKey): (ms: seq<Mapping>) {
    if key in index then index[key] else []
  }

  function AddTo(index: Index, key: Option<IndexKey>, m: Mapping): (r: Index) {
    match key case Some(k) => index[k := Bucket(index, k) + [m]] case None => index
  }

  // ---------- The store ----------

  predicate Distinct(order: seq<string>) {
    forall i, j :: 0 <= i < j < |order| ==> order[i] != order[j]
  }

  // The store's own fields.
  datatype Stored = Stored(byID: map<string, Mapping>, order: seq<string>, nextSeq: nat)

  ghost predicate Consistent(s: Stored) {
    && Distinct(s.order)
    && (forall id :: id in s.order <==> id in s.byID)
    && (forall id :: id in s.byID ==> s.byID[id].id == id && s.byID[id].sequence <= s.nextSeq)
    && (forall i, j :: 0 <= i < j < |s.order| ==> s.byID[s.order[i]].sequence < s.byID[s.order[j]].sequence)
  }

  // What Create stores: a stored id keeps its sequence number, a new one gets the next.
  function Created(s: Stored, m: Mapping): (r: Mapping) {
    m.(sequence := if m.id in s.byID then s.byID[m.id].sequence else s.nextSeq + 1)
  }

  function AfterCreate(s: Stored, m: Mapping): (r: Stored) {
    var known := m.id in s.byID;
    Stored(s.byID[m.id := Created(s, m)], if known then s.order else s.order + [m.id],
          if known then s.nextSeq else s.nextSeq + 1)
  }

  function Replaced(s: Stored, id: string, m: Mapping): (r: Option<Mapping>) {
    if id in s.byID then Some(m.(id := id, sequence := s.byID[id].sequence)) else None
  }

  function AfterReplace(s: Stored, id: string, m: Mapping): (r: Stored) {
    match Replaced(s, id, m)
    case Some(replaced) => s.(byID := s.byID[id := replaced])
    case None => s
  }

  function RemoveID(order: seq<string>, id: string): (r: seq<string>) {
    if |order| == 0 then [] else if order[0] == id then order[1..] else [order[0]] + RemoveID(order[1..], id)
  }

  function AfterDelete(s: Stored, id: string): (r: Stored) {
    if id in s.byID then Stored(s.byID - {id}, RemoveID(s.order, id), s.nextSeq) else s
  }

  lemma CreateKeepsConsistent(s: Stored, m: Mapping)
    requires Consistent(s)
    ensures Consistent(AfterCreate(s, m))
  {
    var r := AfterCreate(s, m);
    if m.id !in s.byID {
      assert m.id !in s.order;
      assert forall i :: 0 <= i < |s.order| ==> r.order[i] == s.order[i] && s.order[i] in s.byID;
    }
  }

  lemma ReplaceKeepsConsistent(s: Stored, id: string, m: Mapping)
    requires Consistent(s)
    ensures Consistent(AfterReplace(s, id, m))
  {
  }

  lemma {:induction false} RemovePrefix(order: seq<string>, i: nat)
    requires i < |order| && order[i] !in order[..i]
    ensures RemoveID(order, order[i]) == order[..i] + order[i + 1..]
  {
    if i > 0 {
      assert order[..i] == [order[0]] + order[1..][..i - 1];
      RemovePrefix(order[1..], i - 1);
    }
  }

  lemma {:induction false} RemoveNothing(order: seq<string>, id: string)
    requires id !in order
    ensures RemoveID(order, id) == order
  {
    if |order| != 0 { RemoveNothing(order[1..], id); }
  }

  // Removing an id closes the gap it leaves and moves nothing else.
  lemma RemoveShifts(order: seq<string>, id: string, k: nat)
    requires Distinct(order) && k < |order| && order[k] == id
    ensures var r := RemoveID(order, id);
      && |r| == |order| - 1
      && (forall i :: 0 <= i < |r| ==> r[i] == order[if i < k then i else i + 1])
      && (forall x :: x in r <==> x in order && x != id)
  {
    RemovePrefix(order, k);
    var r := RemoveID(order, id);
    forall x | x in order && x != id ensures x in r {
      var i :| 0 <= i < |order| && order[i] == x;
      assert r[if i < k then i else i - 1] == x;
    }
  }

  lemma DeletedPair(s: Stored, id: string, k: nat, i: nat, j: nat)
    requires Consistent(s) && k < |s.order| && s.order[k] == id
    requires i < j < |AfterDelete(s, id).order|
    ensures var r := AfterDelete(s, id);
      && r.order[i] != r.order[j]
      && r.order[i] in r.byID && r.order[j] in r.byID
      && r.byID[r.order[i]].sequence < r.byID[r.order[j]].sequence
  {
    assert id in s.order;
    RemoveShifts(s.order, id, k);
    hide RemoveID;
    var i', j' := if i < k then i else i + 1, if j < k then j else j + 1;
    assert s.order[i'] in s.order && s.order[j'] in s.order;
    assert s.order[i'] != id && s.order[j'] != id;
  }

  lemma DeletedTable(s: Stored, id: string, k: nat)
    requires Consistent(s) && k < |s.order| && s.order[k] == id
    ensures var r := AfterDelete(s, id);
      && (forall x :: x in r.order <==> x in r.byID)
      && (forall x :: x in r.byID ==> r.byID[x].id == x && r.byID[x].sequence <= r.nextSeq)
  {
    assert id in s.order;
    RemoveShifts(s.order, id, k);
    hide RemoveID;
  }

  lemma DeleteKeepsConsistent(s: Stored, id: string)
    requires Consistent(s)
    ensures Consistent(AfterDelete(s, id))
  {
    hide RemoveID;
    if id in s.byID {
      var k :| 0 <= k < |s.order| && s.order[k] == id;
      DeletedTable(s, id, k);
      var r := AfterDelete(s, id);
      assert Consistent(r) by {
        hide AfterDelete;
        forall i, j | 0 <= i < j < |r.order|
          ensures r.order[i] != r.order[j] && r.byID[r.order[i]].sequence < r.byID[r.order[j]].sequence
        {
          DeletedPair(s, id, k, i, j);
        }
      }
    }
  }

  // A snapshot is exact when every part of it says about the stored mappings what
  // a scan of their list would say.
  ghost predicate Exact(snapshot: Snapshot, s: Stored) {
    && snapshot.mappings == Listed(s.order, s.byID)
    && snapshot.byID == s.byID
    && ExactIndexes(snapshot, snapshot.mappings)
  }

  ghost predicate ExactIndexes(s: Snapshot, ms: seq<Mapping>) {
    && (forall key :: Bucket(s.byExactURL, key) == Filter(ms, m => URLKey(m) == Some(key)))
    && (forall key :: Bucket(s.byExactPath, key) == Filter(ms, m => PathKey(m) == Some(key)))
    && s.fallback == Filter(ms, IsFallback)
    && (s.hasScenarios <==> exists i :: 0 <= i < |ms| && ms[i].scenario.name != "")
  }

  lemma FilterOne(ms: seq<Mapping>, m: Mapping, p: Mapping -> bool)
    ensures Filter(ms + [m], p) == Filter(ms, p) + if p(m) then [m] else []
  {
    assert (ms + [m])[..|ms|] == ms;
  }

  // One turn of publishLocked's loop keeps the indexes exact.
  lemma IndexOne(s: Snapshot, s': Snapshot, ms: seq<Mapping>, m: Mapping)
    requires ExactIndexes(s, ms)
    requires s'.byExactURL == AddTo(s.byExactURL, URLKey(m), m)
    requires s'.byExactPath == AddTo(s.byExactPath, PathKey(m), m)
    requires s'.fallback == s.fallback + if IsFallback(m) then [m] else []
    requires s'.hasScenarios == (s.hasScenarios || m.scenario.name != "")
    ensures ExactIndexes(s', ms + [m])
  {
    hide Filter, URLKey, PathKey, IsFallback, Bucket;
    forall key ensures Bucket(s'.byExactURL, key) == Filter(ms + [m], x => URLKey(x) == Some(key)) {
      FilterOne(ms, m, x => URLKey(x) == Some(key));
      AddedTo(s.byExactURL, URLKey(m), m, key);
    }
    forall key ensures Bucket(s'.byExactPath, key) == Filter(ms + [m], x => PathKey(x) == Some(key)) {
      FilterOne(ms, m, x => PathKey(x) == Some(key));
      AddedTo(s.byExactPath, PathKey(m), m, key);
    }
    FilterOne(ms, m, IsFallback);
    ScenarioAdded(ms, m);
  }

  lemma AddedTo(index: Index, at: Option<IndexKey>, m: Mapping, key: IndexKey)
    ensures Bucket(AddTo(index, at, m), key) == Bucket(index, key) + if at == Some(key) then [m] else []
  {
    assert Bucket(index, key) + [] == Bucket(index, key);
  }

  lemma ScenarioAdded(ms: seq<Mapping>, m: Mapping)
    ensures (exists i :: 0 <= i < |ms + [m]| && (ms + [m])[i].scenario.name != "")
       <==> (exists i :: 0 <= i < |ms| && ms[i].scenario.name != "") || m.scenario.name != ""
  {
    if i :| 0 <= i < |ms| && ms[i].scenario.name != "" {
      assert (ms + [m])[i].scenario.name != "";
    }
    assert (ms + [m])[|ms|] == m;
    assert forall i :: 0 <= i < |ms| ==> (ms + [m])[i] == ms[i];
  }

  class Store {
    var byID: map<string, Mapping>
    var order: seq<string>
    var nextSeq: nat
    var snapshot: Snapshot

    ghost function Contents(): (s: Stored)
      reads this
    {
      Stored(byID, order, nextSeq)
    }

    ghost predicate Valid()
      reads this
    {
      Consistent(Contents()) && Exact(snapshot, Contents())
    }

    constructor ()
      ensures Valid() && Contents() == Stored(map[], [], 0)
    {
      byID, order, nextSeq := map[], [], 0;
      snapshot := Snapshot([], map[], map[], map[], [], false);
    }

    method Create(mapping: Mapping) returns (created: Mapping)
      requires Valid()
      modifies this
      ensures Valid()
      ensures created == Created(old(Contents()), mapping) && Contents() == AfterCreate(old(Contents()), mapping)
    {
      hide Consistent, Exact;
      CreateKeepsConsistent(Contents(), mapping);
      created := mapping;
      if mapping.id in byID {
        created := created.(sequence := byID[mapping.id].sequence);
      } else {
        nextSeq := nextSeq + 1;
        created := created.(sequence := nextSeq);
        order := order + [mapping.id];
      }
      byID := byID[mapping.id := created];
      Publish();
    }

    method Replace(id: string, mapping: Mapping) returns (replaced: Option<Mapping>)
      requires Valid()
      modifies this
      ensures Valid()
      ensures replaced == Replaced(old(Contents()), id, mapping) && Contents()
        == AfterReplace(old(Contents()), id, mapping)
    {
      hide Consistent, Exact;
      ReplaceKeepsConsistent(Contents(), id, mapping);
      if id !in byID {
        return None;
      }
      var next := mapping.(id := id, sequence := byID[id].sequence);
      byID := byID[id := next];
      Publish();
      return Some(next);
    }

    method Delete(id: string) returns (deleted: bool)
      requires Valid()
      modifies this
      ensures Valid()
      ensures deleted == (id in old(byID)) && Contents() == AfterDelete(old(Contents()), id)
    {
      hide Exact, Consistent, RemoveID;
      DeleteKeepsConsistent(Contents(), id);
      if id !in byID {
        return false;
      }
      byID := byID - {id};
      order := RemoveOrdered(order, id);
      Publish();
      return true;
    }

    // The loop of Delete over order.
    static method RemoveOrdered(order: seq<string>, id: string) returns (r: seq<string>)
      ensures r == RemoveID(order, id)
    {
      hide RemoveID;
      for i := 0 to |order|
        invariant id !in order[..i]
      {
        if order[i] == id {
          RemovePrefix(order, i);
          return order[..i] + order[i + 1..];
        }
      }
      RemoveNothing(order, id);
      return order;
    }

    // publishLocked. Every id in order has a mapping, so none is skipped.
    method Publish()
      requires Consistent(Contents())
      modifies `snapshot
      ensures Exact(snapshot, Contents())
    {
      hide ExactIndexes, Distinct;
      assert forall id :: id in order <==> id in byID;
      hide Consistent;
      var next := Snapshot([], map[], map[], map[], [], false);
      assert ExactIndexes(next, []) by { EmptyIndexes(next); }
      for i := 0 to |order|
        invariant next.mappings == Listed(order[..i], byID)
        invariant ExactIndexes(next, next.mappings)
        invariant next.byID == TableOf(order[..i], byID)
      {
        assert order[i] in order;
        next := PublishOne(next, order[i], byID[order[i]]);
        assert order[..i + 1] == order[..i] + [order[i]] && order[..i + 1][..i] == order[..i];
      }
      assert order[..|order|] == order;
      TableOfAll(order, byID);
      snapshot := next;
    }

    // The body of publishLocked's loop, with indexMapping.
    static method PublishOne(s: Snapshot, id: string, mapping: Mapping) returns (next: Snapshot)
      requires ExactIndexes(s, s.mappings)
      ensures next.mappings == s.mappings + [mapping] && next.byID == s.byID[id := mapping]
      ensures ExactIndexes(next, next.mappings)
    {
      hide ExactIndexes;
      next := Snapshot(s.mappings + [mapping], s.byID[id := mapping],
                       s.byExactURL, s.byExactPath, s.fallback, s.hasScenarios || mapping.scenario.name != "");
      if mapping.request.url != "" {
        var key := IndexKey(mapping.request.httpMethod, mapping.request.url);
        next := next.(byExactURL := next.byExactURL[key := Bucket(next.byExactURL, key) + [mapping]]);
      } else if mapping.request.urlPath != "" {
        var key := IndexKey(mapping.request.httpMethod, mapping.request.urlPath);
        next := next.(byExactPath := next.byExactPath[key := Bucket(next.byExactPath, key) + [mapping]]);
      } else {
        next := next.(fallback := next.fallback + [mapping]);
      }
      assert s.fallback + [] == s.fallback;
      IndexOne(s, next, s.mappings, mapping);
    }
  }

  // The table publishLocked fills while it follows order.
  function TableOf(order: seq<string>, byID: map<string, Mapping>): (r: map<string, Mapping>) {
    if |order| == 0 then map[]
    else
      var last := order[|order| - 1];
      if last in byID then TableOf(order[..|order| - 1], byID)[last := byID[last]]
        else TableOf(order[..|order| - 1], byID)
  }

  lemma {:induction false} TableOfEntries(order: seq<string>, byID: map<string, Mapping>)
    ensures forall id :: id in TableOf(order, byID) <==> id in order && id in byID
    ensures forall id :: id in TableOf(order, byID) ==> TableOf(order, byID)[id] == byID[id]
  {
    if |order| != 0 {
      TableOfEntries(order[..|order| - 1], byID);
      assert order == order[..|order| - 1] + [order[|order| - 1]];
    }
  }

  lemma TableOfAll(order: seq<string>, byID: map<string, Mapping>)
    requires forall id :: id in order <==> id in byID
    ensures TableOf(order, byID) == byID
  {
    TableOfEntries(order, byID);
  }

  lemma EmptyIndexes(s: Snapshot)
    requires s.byExactURL == map[] && s.byExactPath == map[] && s.fallback == [] && !s.hasScenarios
    ensures ExactIndexes(s, [])
  {
  }
}
