// Choosing the stub that serves a request: rangeCandidates (internal/mapping/store.go),
// compareStubOrder and selectBestStub (internal/server/runtime.go).
module Selection {
  import opened Wrappers
  import opened Utf8
  import opened Matching
  import opened MappingStore

  // ---------- Candidates from the indexes ----------

  // rangeCandidates, in the order in which it yields.
  function Candidates(s: Snapshot, httpMethod: string, uri: string, path: string): (cs: seq<Mapping>) {
    var m := ToUpper(httpMethod);
    Bucket(s.byExactURL, IndexKey(m, uri))
    + (if m != "ANY" then Bucket(s.byExactURL, IndexKey("ANY", uri)) else [])
    + Bucket(s.byExactPath, IndexKey(m, path))
    + (if m != "ANY" then Bucket(s.byExactPath, IndexKey("ANY", path)) else [])
    + s.fallback
  }

  // A parsed mapping's method is upper case.
  predicate Parsed(m: Mapping) { m.request.httpMethod == ToUpper(m.request.httpMethod) }

  // In a plain mapping it is also ASCII.
  predicate Plain(m: Mapping) { Parsed(m) && IsASCII(m.request.httpMethod) }

  predicate AllPlain(ms: seq<Mapping>) { forall i :: 0 <= i < |ms| ==> Plain(ms[i]) }

  function MatchedBy(request: Request, lib: Library): (p: Mapping -> bool) {
    (m: Mapping) => Matches(m.request, request, lib)
  }

  // How often x is among the filtered mappings.
  lemma {:induction false} FilterCount(ms: seq<Mapping>, p: Mapping -> bool, x: Mapping)
    ensures multiset(Filter(ms, p))[x] == if p(x) then multiset(ms)[x] else 0
  {
    if |ms| != 0 {
      var prefix, last := ms[..|ms| - 1], ms[|ms| - 1];
      FilterCount(prefix, p, x);
      assert ms == prefix + [last];
    }
  }

  // Among methods equal to the request's but for case, the index key is the one in ASCII.
  lemma FoldMethods(a: string, b: string)
    requires EqualFold(a, b) && a == ToUpper(a) && IsToken(b)
    ensures ToUpper(b) == a <==> IsASCII(a)
  {
    TokenASCII(b);
    FoldedASCII(b);
    if IsASCII(a) { FoldedASCII(a); }
    if ToUpper(b) == a {
      forall i | 0 <= i < |a| ensures a[i] < '\U{0080}' { assert b[i] < '\U{0080}'; }
    }
  }

  // The indexes keep a mapping where the request looks for it.
  predicate Indexed(m: Mapping, request: Request) {
    var upper := ToUpper(request.httpMethod);
    || URLKey(m) == Some(IndexKey(upper, request.uri)) || URLKey(m) == Some(IndexKey("ANY", request.uri))
    || PathKey(m) == Some(IndexKey(upper, request.path)) || PathKey(m) == Some(IndexKey("ANY", request.path))
    || IsFallback(m)
  }

  // A mapping that matches a request is found through the indexes exactly when its
  // method is ASCII or it is not indexed at all.
  lemma MatchIndexedIff(m: Mapping, request: Request, lib: Library)
    requires Parsed(m) && IsToken(request.httpMethod) && Matches(m.request, request, lib)
    ensures Indexed(m, request) <==> IsASCII(m.request.httpMethod) || IsFallback(m)
  {
    hide Folded, IsToken;
    if m.request.httpMethod != "ANY" {
      FoldMethods(m.request.httpMethod, request.httpMethod);
    }
  }

  // A stub for LINK written with a Kelvin sign matches a LINK request, and the
  // indexes do not find it.
  lemma KelvinMethodMissed(s: Snapshot, response: ResponseDefinition, lib: Library)
    requires ExactIndexes(s, [KelvinStub(response)])
    ensures var request := Request("LINK", "/", "/", map[], map[], Some(""));
      Matches(KelvinStub(response).request, request, lib) && Candidates(s, "LINK", "/", "/") == []
  {
    var stub := KelvinStub(response);
    hide Folded, ExactIndexes;
    KelvinMethod();
    assert ToUpper("LINK") == "LINK";
    EmptyBuckets(s, stub, "LINK");
    EmptyBuckets(s, stub, "ANY");
  }

  lemma KelvinMethod()
    ensures var m := "LIN" + KELVIN;
      EqualFold(m, "LINK") && m != "LINK" && m != "ANY" && m != ""
  {
    Matching.KelvinFolds("LIN", "");
    assert "LIN" + KELVIN + "" == "LIN" + KELVIN && "LIN" + ['K'] + "" == "LINK";
    assert ("LIN" + KELVIN)[3] == KELVIN[0] && "LINK"[3] == 'K';
  }

  // A stub under another method is in no bucket of this one.
  lemma EmptyBuckets(s: Snapshot, stub: Mapping, httpMethod: string)
    requires ExactIndexes(s, [stub]) && !IsFallback(stub) && stub.request.httpMethod != httpMethod
    ensures Bucket(s.byExactURL, IndexKey(httpMethod, "/")) == [] && s.fallback == []
    ensures Bucket(s.byExactPath, IndexKey(httpMethod, "/")) == []
  {
    assert [stub][..0] == [];
    assert s.fallback == Filter([stub], IsFallback) && Filter([stub], IsFallback) == [];
    assert Filter([stub], x => URLKey(x) == Some(IndexKey(httpMethod, "/"))) == [];
    assert Filter([stub], x => PathKey(x) == Some(IndexKey(httpMethod, "/"))) == [];
  }

  function KelvinStub(response: ResponseDefinition): (m: Mapping) {
    Mapping("id", 5, Scenario("", "", ""),
            RequestPattern("LIN" + KELVIN, "", "/", "", "", [], map[], map[], None), response, 1)
  }

  // Every matching stored mapping is yielded exactly as often as it is stored.
  lemma CandidateCount(s: Snapshot, ms: seq<Mapping>, request: Request, lib: Library, x: Mapping)
    requires ExactIndexes(s, ms) && AllPlain(ms)
    requires x in ms && Matches(x.request, request, lib) && IsToken(request.httpMethod)
    ensures multiset(Candidates(s, request.httpMethod, request.uri, request.path))[x] == multiset(ms)[x]
  {
    hide Matches, ExactIndexes;
    var m := ToUpper(request.httpMethod);
    var u1, u2 := IndexKey(m, request.uri), IndexKey("ANY", request.uri);
    var p1, p2 := IndexKey(m, request.path), IndexKey("ANY", request.path);
    MatchIndexedIff(x, request, lib);
    URLCount(s, ms, u1, x);
    URLCount(s, ms, u2, x);
    PathCount(s, ms, p1, x);
    PathCount(s, ms, p2, x);
    FallbackCount(s, ms, x);
  }

  lemma URLCount(s: Snapshot, ms: seq<Mapping>, key: IndexKey, x: Mapping)
    requires ExactIndexes(s, ms)
    ensures multiset(Bucket(s.byExactURL, key))[x] == if URLKey(x) == Some(key) then multiset(ms)[x] else 0
  {
    FilterCount(ms, m => URLKey(m) == Some(key), x);
  }

  lemma PathCount(s: Snapshot, ms: seq<Mapping>, key: IndexKey, x: Mapping)
    requires ExactIndexes(s, ms)
    ensures multiset(Bucket(s.byExactPath, key))[x] == if PathKey(x) == Some(key) then multiset(ms)[x] else 0
  {
    FilterCount(ms, m => PathKey(m) == Some(key), x);
  }

  lemma FallbackCount(s: Snapshot, ms: seq<Mapping>, x: Mapping)
    requires ExactIndexes(s, ms)
    ensures multiset(s.fallback)[x] == if IsFallback(x) then multiset(ms)[x] else 0
  {
    FilterCount(ms, IsFallback, x);
  }

  lemma CandidateStored(s: Snapshot, ms: seq<Mapping>, httpMethod: string, uri: string, path: string, x: Mapping)
    requires ExactIndexes(s, ms)
    requires x in Candidates(s, httpMethod, uri, path)
    ensures x in ms
  {
    hide ExactIndexes;
    var m := ToUpper(httpMethod);
    URLCount(s, ms, IndexKey(m, uri), x);
    URLCount(s, ms, IndexKey("ANY", uri), x);
    PathCount(s, ms, IndexKey(m, path), x);
    PathCount(s, ms, IndexKey("ANY", path), x);
    FallbackCount(s, ms, x);
    var cs := Candidates(s, httpMethod, uri, path);
    assert multiset(cs)[x] > 0;
    assert multiset(ms)[x] > 0;
  }

  // Going through the indexes finds the matches of a full scan, each as often.
  lemma IndexedMatchesAreAllMatches(s: Snapshot, ms: seq<Mapping>, request: Request, lib: Library)
    requires ExactIndexes(s, ms) && AllPlain(ms) && IsToken(request.httpMethod)
    ensures multiset(Filter(Candidates(s, request.httpMethod, request.uri, request.path), MatchedBy(request, lib)))
         == multiset(Filter(ms, MatchedBy(request, lib)))
  {
    hide ExactIndexes, Matches, Candidates;
    var cs, p := Candidates(s, request.httpMethod, request.uri, request.path), MatchedBy(request, lib);
    forall x ensures multiset(Filter(cs, p))[x] == multiset(Filter(ms, p))[x] {
      FilterCount(cs, p, x);
      FilterCount(ms, p, x);
      if p(x) {
        if x in ms {
          CandidateCount(s, ms, request, lib, x);
        } else if x in cs {
          CandidateStored(s, ms, request.httpMethod, request.uri, request.path, x);
        }
      }
    }
  }

  // ---------- The order of stubs ----------

  const TWO63: int := 0x8000_0000_0000_0000

  // Subtraction of 64-bit integers, which wraps around.
  function Sub64(a: int, b: int): (r: int) {
    var d := a - b;
    if d >= TWO63 then d - 2 * TWO63 else if d < -TWO63 then d + 2 * TWO63 else d
  }

  function CompareStubOrder(left: Mapping, right: Mapping): (r: int) {
    if left.priority != right.priority then Sub64(left.priority, right.priority)
    else if left.sequence < right.sequence then -1
    else if left.sequence > right.sequence then 1
    else 0
  }

  // Lower priority first, then insertion order.
  predicate Before(left: Mapping, right: Mapping) {
    left.priority < right.priority || (left.priority == right.priority && left.sequence < right.sequence)
  }

  predicate Int64(m: Mapping) { -TWO63 <= m.priority < TWO63 }

  predicate DifferenceFits(left: Mapping, right: Mapping) {
    -TWO63 <= left.priority - right.priority < TWO63
  }

  // The comparison is the intended order exactly where the subtraction does not wrap.
  lemma CompareCorrectIff(left: Mapping, right: Mapping)
    requires Int64(left) && Int64(right)
    ensures (CompareStubOrder(left, right) < 0 <==> Before(left, right)) <==> DifferenceFits(left, right)
  {
  }

  // selectBestStub, and every other selection loop of the source.
  function Best(cs: seq<Mapping>): (r: Option<Mapping>) {
    if |cs| == 0 then None
    else
      var last := cs[|cs| - 1];
      match Best(cs[..|cs| - 1])
      case None => Some(last)
      case Some(b) => if CompareStubOrder(last, b) < 0 then Some(last) else Some(b)
  }

  lemma BestNone()
    ensures Best([]) == None
  {
  }

  lemma BestNext(cs: seq<Mapping>, m: Mapping)
    ensures Best(cs + [m]) ==
      if Best(cs).None? || CompareStubOrder(m, Best(cs).value) < 0 then Some(m) else Best(cs)
  {
    assert (cs + [m])[..|cs|] == cs;
  }

  ghost predicate IsBest(m: Mapping, cs: seq<Mapping>) {
    m in cs && forall x :: x in cs ==> x == m || Before(m, x)
  }

  // Sequence numbers tell mappings apart.
  ghost predicate Identified(cs: seq<Mapping>) {
    forall x, y :: x in cs && y in cs && x.sequence == y.sequence ==> x == y
  }

  ghost predicate Fits(cs: seq<Mapping>) {
    forall x, y :: x in cs && y in cs ==> DifferenceFits(x, y)
  }

  lemma {:induction false} BestIsBest(cs: seq<Mapping>)
    requires |cs| > 0 && Identified(cs) && Fits(cs)
    ensures Best(cs).Some? && IsBest(Best(cs).value, cs)
  {
    var prefix, last := cs[..|cs| - 1], cs[|cs| - 1];
    assert cs == prefix + [last];
    assert forall x :: x in cs <==> x in prefix || x == last;
    if |prefix| > 0 {
      BestIsBest(prefix);
      var b := Best(prefix).value;
      assert b in cs && last in cs;
      assert DifferenceFits(last, b);
      assert last.sequence == b.sequence ==> last == b;
    }
  }

  lemma BestUnique(m: Mapping, m': Mapping, cs: seq<Mapping>, cs': seq<Mapping>)
    requires IsBest(m, cs) && IsBest(m', cs')
    requires forall x :: x in cs <==> x in cs'
    ensures m == m'
  {
  }

  // Selection from any candidates among the given stubs is right exactly when no
  // two of their priorities are so far apart that comparing them wraps.
  lemma SelectionCorrectIff(stubs: seq<Mapping>)
    requires Identified(stubs) && forall i :: 0 <= i < |stubs| ==> Int64(stubs[i])
    ensures Fits(stubs) <==>
      forall cs: seq<Mapping> :: |cs| > 0 && (forall x :: x in cs ==> x in stubs) ==>
        Best(cs).Some? && IsBest(Best(cs).value, cs)
  {
    if Fits(stubs) {
      forall cs: seq<Mapping> | |cs| > 0 && (forall x :: x in cs ==> x in stubs)
        ensures Best(cs).Some? && IsBest(Best(cs).value, cs)
      {
        BestIsBest(cs);
      }
    } else {
      var x, y :| x in stubs && y in stubs && !DifferenceFits(x, y);
      var low, high := if x.priority < y.priority then x else y, if x.priority < y.priority then y else x;
      assert Int64(low) && Int64(high);
      FarApart(low, high);
      hide Best, IsBest;
      assert forall m :: m in [low, high] ==> m in stubs;
    }
  }

  lemma FarApart(low: Mapping, high: Mapping)
    requires Int64(low) && Int64(high) && high.priority - low.priority >= TWO63
    ensures Best([low, high]) == Some(high) && !IsBest(high, [low, high])
  {
    var pair := [low, high];
    assert pair[..1] == [low] && [low][..0] == [];
    assert Best([low]) == Some(low);
    assert low in pair && high in pair;
  }

  // Two priorities far enough apart make the larger one win.
  lemma WrappedPriorityWins(request: RequestPattern, scenario: Scenario, response: ResponseDefinition)
    ensures var low := Mapping("a", -2, scenario, request, response, 1);
      var high := Mapping("b", TWO63 - 1, scenario, request, response, 2);
      Best([low, high]) == Some(high) && IsBest(low, [low, high])
  {
    var low := Mapping("a", -2, scenario, request, response, 1);
    var high := Mapping("b", TWO63 - 1, scenario, request, response, 2);
    assert [low, high][..1] == [low] && [low][..0] == [];
    assert Best([low]) == Some(low);
    assert low in [low, high];
  }

  // ---------- The specification: scan the stubs in insertion order ----------

  // The first stub of the lowest priority.
  function FirstLowest(ms: seq<Mapping>): (r: Option<Mapping>) {
    if |ms| == 0 then None
    else
      var last := ms[|ms| - 1];
      match FirstLowest(ms[..|ms| - 1])
      case None => Some(last)
      case Some(b) => if last.priority < b.priority then Some(last) else Some(b)
  }

  ghost predicate InInsertionOrder(ms: seq<Mapping>) {
    forall i, j :: 0 <= i < j < |ms| ==> ms[i].sequence < ms[j].sequence
  }

  predicate FirstLowestAt(ms: seq<Mapping>, i: nat)
    requires i < |ms|
  {
    && (forall j :: 0 <= j < i ==> ms[i].priority < ms[j].priority)
    && (forall j :: i < j < |ms| ==> ms[i].priority <= ms[j].priority)
  }

  // What the scan picks: nothing earlier is as low, nothing later is lower.
  lemma {:induction false} FirstLowestMeaning(ms: seq<Mapping>)
    requires |ms| > 0
    ensures exists i :: 0 <= i < |ms| && FirstLowest(ms) == Some(ms[i]) && FirstLowestAt(ms, i)
  {
    var prefix, last := ms[..|ms| - 1], ms[|ms| - 1];
    if |prefix| == 0 {
      assert FirstLowest(ms) == Some(ms[0]);
    } else {
      FirstLowestMeaning(prefix);
      var i :| 0 <= i < |prefix| && FirstLowest(prefix) == Some(prefix[i]) && FirstLowestAt(prefix, i);
      assert forall j :: 0 <= j < |prefix| ==> prefix[j] == ms[j];
      if last.priority < prefix[i].priority {
        assert FirstLowestAt(ms, |ms| - 1);
      } else {
        assert FirstLowestAt(ms, i);
      }
    }
  }

  lemma FirstLowestIsBest(ms: seq<Mapping>)
    requires |ms| > 0 && InInsertionOrder(ms)
    ensures FirstLowest(ms).Some? && IsBest(FirstLowest(ms).value, ms)
  {
    FirstLowestMeaning(ms);
    var i :| 0 <= i < |ms| && FirstLowest(ms) == Some(ms[i]) && FirstLowestAt(ms, i);
    forall x | x in ms ensures x == ms[i] || Before(ms[i], x) {
      var j :| 0 <= j < |ms| && ms[j] == x;
    }
  }

  lemma {:induction false} FilterInOrder(ms: seq<Mapping>, p: Mapping -> bool)
    requires InInsertionOrder(ms)
    ensures InInsertionOrder(Filter(ms, p))
    ensures forall x :: x in Filter(ms, p) <==> x in ms && p(x)
  {
    if |ms| != 0 {
      var prefix, last := ms[..|ms| - 1], ms[|ms| - 1];
      assert ms == prefix + [last];
      FilterInOrder(prefix, p);
      forall x | x in prefix ensures x.sequence < last.sequence {
        var i :| 0 <= i < |prefix| && prefix[i] == x;
        assert ms[i] == x;
      }
    }
  }

  lemma OrderIdentifies(ms: seq<Mapping>)
    requires InInsertionOrder(ms)
    ensures Identified(ms)
  {
    forall x, y | x in ms && y in ms && x.sequence == y.sequence ensures x == y {
      var i :| 0 <= i < |ms| && ms[i] == x;
      var j :| 0 <= j < |ms| && ms[j] == y;
    }
  }

  // Choosing by (priority, sequence) among any arrangement of the stubs of a scan
  // is choosing the first lowest in the scan.
  lemma BestIsFirstLowest(cs: seq<Mapping>, ms: seq<Mapping>)
    requires multiset(cs) == multiset(ms)
    requires InInsertionOrder(ms) && Fits(ms)
    ensures Best(cs) == FirstLowest(ms)
  {
    assert |multiset(cs)| == |cs| && |multiset(ms)| == |ms|;
    forall x ensures x in cs <==> x in ms {
      assert x in cs <==> x in multiset(cs);
      assert x in ms <==> x in multiset(ms);
    }
    if |ms| > 0 {
      OrderIdentifies(ms);
      BestIsBest(cs);
      FirstLowestIsBest(ms);
      BestUnique(Best(cs).value, FirstLowest(ms).value, cs, ms);
    }
  }

  // The candidates that match are distinct, so the choice among them is unambiguous.
  lemma MatchingCandidatesDistinct(s: Snapshot, ms: seq<Mapping>, request: Request, lib: Library)
    requires ExactIndexes(s, ms) && AllPlain(ms) && InInsertionOrder(ms) && IsToken(request.httpMethod)
    ensures var cs := Filter(Candidates(s, request.httpMethod, request.uri, request.path), MatchedBy(request, lib));
      forall i, j :: 0 <= i < j < |cs| ==> cs[i] != cs[j]
  {
    hide ExactIndexes, Matches, Candidates;
    var p := MatchedBy(request, lib);
    var cs := Filter(Candidates(s, request.httpMethod, request.uri, request.path), p);
    IndexedMatchesAreAllMatches(s, ms, request, lib);
    FilterInOrder(ms, p);
    forall i, j | 0 <= i < j < |cs| ensures cs[i] != cs[j] {
      if cs[i] == cs[j] {
        CountsTwice(cs, i, j);
        CountsOnce(Filter(ms, p), cs[i]);
      }
    }
  }

  lemma CountsTwice(cs: seq<Mapping>, i: nat, j: nat)
    requires i < j < |cs| && cs[i] == cs[j]
    ensures multiset(cs)[cs[i]] >= 2
  {
    assert cs == cs[..i] + ([cs[i]] + (cs[i + 1..j] + ([cs[j]] + cs[j + 1..])));
  }

  lemma {:induction false} CountsOnce(ms: seq<Mapping>, x: Mapping)
    requires InInsertionOrder(ms)
    ensures multiset(ms)[x] <= 1
  {
    if |ms| != 0 {
      var prefix, last := ms[..|ms| - 1], ms[|ms| - 1];
      assert ms == prefix + [last];
      CountsOnce(prefix, x);
      forall y | y in prefix ensures y != last {
        var i :| 0 <= i < |prefix| && prefix[i] == y;
        assert ms[i].sequence < ms[|ms| - 1].sequence;
      }
    }
  }

  // selectBestStub
  method SelectBestStub(candidates: seq<Mapping>) returns (selected: Option<Mapping>)
    ensures selected == Best(candidates)
  {
    hide Best, CompareStubOrder;
    BestNone();
    selected := None;
    for i := 0 to |candidates|
      invariant selected == Best(candidates[..i])
    {
      assert candidates[..i + 1] == candidates[..i] + [candidates[i]];
      BestNext(candidates[..i], candidates[i]);
      if selected.None? || CompareStubOrder(candidates[i], selected.value) < 0 {
        selected := Some(candidates[i]);
      }
    }
    assert candidates[..|candidates|] == candidates;
  }
}
