// Why canonical texts can be taken apart again: reading one from the left while
// tracking bracket depth and quotes, no separator occurs outside brackets and
// quotes before the text of a component ends.
module TextScan {
  import opened Strings
  import opened GraphQLTokens

  datatype Mode = Plain | Quoted | Escaped

  datatype State = State(depth: int, mode: Mode)

  const START := State(0, Plain)

  predicate IsOpen(c: char) { c == '[' || c == '{' || c == '(' }

  predicate IsClose(c: char) { c == ']' || c == '}' || c == ')' }

  function Step(st: State, c: char): (r: State) {
    match st.mode
    case Plain =>
      if c == '"' then st.(mode := Quoted)
      else if IsOpen(c) then st.(depth := st.depth + 1)
      else if IsClose(c) then st.(depth := st.depth - 1)
      else st
    case Quoted => if c == '\\' then st.(mode := Escaped) else if c == '"' then st.(mode := Plain) else st
    case Escaped => st.(mode := Quoted)
  }

  function Run(st: State, s: string): (r: State)
    decreases |s|
  {
    if |s| == 0 then st else Run(Step(st, s[0]), s[1..])
  }

  // Characters that may not appear at depth zero: closing brackets (level 0),
  // separators of items as well (level 1), separators of parts as well (level 2).
  predicate IsStop(c: char, level: nat) {
    IsClose(c) || (level >= 1 && (c == ',' || c == '|')) || (level >= 2 && (c == ':' || c == '='))
  }

  predicate Free(st: State, s: string, level: nat)
    decreases |s|
  {
    |s| == 0 || ((st == START ==> !IsStop(s[0], level)) && Free(Step(st, s[0]), s[1..], level))
  }

  predicate Balanced(s: string, level: nat) { Free(START, s, level) && Run(START, s) == START }

  lemma {:induction false} RunAppend(st: State, a: string, b: string)
    ensures Run(st, a + b) == Run(Run(st, a), b)
    decreases |a|
  {
    if |a| == 0 {
      assert a + b == b;
    } else {
      assert (a + b)[1..] == a[1..] + b;
      RunAppend(Step(st, a[0]), a[1..], b);
    }
  }

  lemma {:induction false} FreeAppend(st: State, a: string, b: string, level: nat)
    ensures Free(st, a + b, level) <==> Free(st, a, level) && Free(Run(st, a), b, level)
    decreases |a|
  {
    if |a| == 0 {
      assert a + b == b;
    } else {
      assert (a + b)[1..] == a[1..] + b;
      FreeAppend(Step(st, a[0]), a[1..], b, level);
    }
  }

  lemma BalancedAppend(a: string, b: string, level: nat)
    requires Balanced(a, level) && Balanced(b, level)
    ensures Balanced(a + b, level)
  {
    RunAppend(START, a, b);
    FreeAppend(START, a, b, level);
  }

  lemma {:induction false} FreeWeaken(st: State, s: string, level: nat, level': nat)
    requires Free(st, s, level) && level' <= level
    ensures Free(st, s, level')
    decreases |s|
  {
    if |s| != 0 { FreeWeaken(Step(st, s[0]), s[1..], level, level'); }
  }

  lemma Weaken(s: string, level: nat, level': nat)
    requires Balanced(s, level) && level' <= level
    ensures Balanced(s, level')
  {
    FreeWeaken(START, s, level, level');
  }

  predicate IsPlain(c: char) {
    c != '"' && !IsOpen(c) && !IsStop(c, 2)
  }

  lemma CharBalanced(c: char, level: nat)
    requires c != '"' && !IsOpen(c) && !IsStop(c, level)
    ensures Balanced([c], level)
  {
    assert [c][1..] == "" && !IsClose(c);
  }

  lemma {:induction false} PlainBalanced(s: string)
    requires forall i :: 0 <= i < |s| ==> IsPlain(s[i])
    ensures Balanced(s, 2)
  {
    if |s| != 0 {
      assert IsPlain(s[0]);
      PlainBalanced(s[1..]);
    }
  }

  // Inside brackets the same text is read at a greater depth, where nothing stops.
  lemma {:induction false} Lift(st: State, s: string, level: nat)
    requires st.depth >= 0 && Free(st, s, 0)
    ensures Run(st, s).depth >= 0
    ensures Run(State(st.depth + 1, st.mode), s) == State(Run(st, s).depth + 1, Run(st, s).mode)
    ensures Free(State(st.depth + 1, st.mode), s, level)
    decreases |s|
  {
    if |s| != 0 {
      var up := State(st.depth + 1, st.mode);
      assert Step(up, s[0]) == State(Step(st, s[0]).depth + 1, Step(st, s[0]).mode);
      assert Step(st, s[0]).depth >= 0;
      Lift(Step(st, s[0]), s[1..], level);
    }
  }

  lemma BracketsBalanced(tag: string, open: char, inner: string, close: char)
    requires IsOpen(open) && IsClose(close)
    requires Balanced(tag, 2) && Balanced(inner, 0)
    ensures Balanced(tag + [open] + inner + [close], 2)
  {
    var one := State(1, Plain);
    Lift(START, inner, 2);
    assert Run(one, inner) == one && Free(one, inner, 2);
    RunAppend(one, inner, [close]);
    FreeAppend(one, inner, [close], 2);
    assert Run(one, [close]) == START && Free(one, [close], 2);
    var group := [open] + (inner + [close]);
    assert group[1..] == inner + [close];
    assert Balanced(group, 2);
    BalancedAppend(tag, group, 2);
    assert tag + [open] + inner + [close] == tag + group;
  }

  lemma {:induction false} QuoteRun(s: string, level: nat)
    ensures Run(State(0, Quoted), QuoteBody(s)) == State(0, Quoted)
    ensures Free(State(0, Quoted), QuoteBody(s), level)
    decreases |s|
  {
    hide QuoteFirst, IsPiece;
    if |s| != 0 {
      var (q, n) := QuoteFirst(s);
      QuotePiece(s);
      PieceRun(q, level);
      QuoteRun(s[n..], level);
      RunAppend(State(0, Quoted), q, QuoteBody(s[n..]));
      FreeAppend(State(0, Quoted), q, QuoteBody(s[n..]), level);
    }
  }

  lemma StepRun(st: State, c: char, rest: string, level: nat)
    requires st != START
    ensures Run(st, [c] + rest) == Run(Step(st, c), rest)
    ensures Free(st, [c] + rest, level) == Free(Step(st, c), rest, level)
  {
    assert ([c] + rest)[1..] == rest;
  }

  lemma PieceRun(q: string, level: nat)
    requires IsPiece(q)
    ensures Run(State(0, Quoted), q) == State(0, Quoted)
    ensures Free(State(0, Quoted), q, level)
  {
    hide Run, Free;
    if IsVerbatim(q) {
      VerbatimRun(q, level);
    } else {
      assert q == [q[0]] + ([q[1]] + q[2..]);
      StepRun(State(0, Quoted), q[0], [q[1]] + q[2..], level);
      StepRun(State(0, Escaped), q[1], q[2..], level);
      VerbatimRun(q[2..], level);
    }
  }

  lemma {:induction false} VerbatimRun(q: string, level: nat)
    requires IsVerbatim(q)
    ensures Run(State(0, Quoted), q) == State(0, Quoted)
    ensures Free(State(0, Quoted), q, level)
  {
    if |q| != 0 {
      VerbatimRun(q[1..], level);
      assert q == [q[0]] + q[1..];
      StepRun(State(0, Quoted), q[0], q[1..], level);
    }
  }

  // Quotes around a text that stays quoted.
  lemma QuotedBalanced(body: string)
    requires Run(State(0, Quoted), body) == State(0, Quoted) && Free(State(0, Quoted), body, 2)
    ensures Balanced("\"" + body + "\"", 2)
  {
    var quoted, close := State(0, Quoted), "\"";
    RunAppend(quoted, body, close);
    FreeAppend(quoted, body, close, 2);
    assert close == ['"'] + "";
    StepRun(quoted, '"', "", 2);
    var whole := "\"" + body + "\"";
    assert whole == ['"'] + (body + close) && whole[1..] == body + close;
  }

  lemma QuoteBalanced(s: string)
    ensures Balanced(Quote(s), 2)
  {
    QuoteRun(s, 2);
    QuotedBalanced(QuoteBody(s));
  }

  // ---------- Taking texts apart ----------

  predicate Ends(rest: string, level: nat) { |rest| == 0 || IsStop(rest[0], level) }

  lemma NoStopInside(a: string, b: string, level: nat)
    requires Balanced(a, level) && Balanced(b, level) && a < b
    ensures !IsStop(b[|a|], level)
  {
    assert b == a + b[|a|..];
    FreeAppend(START, a, b[|a|..], level);
  }

  lemma Cut(a: string, b: string, x: string, y: string, level: nat)
    requires Balanced(a, level) && Balanced(b, level)
    requires Ends(x, level) && Ends(y, level)
    requires a + x == b + y
    ensures a == b && x == y
  {
    CutNotShorter(a, b, x, y, level);
    CutNotShorter(b, a, y, x, level);
    assert (a + x)[..|a|] == a && (b + y)[..|b|] == b;
    assert (a + x)[|a|..] == x && (b + y)[|b|..] == y;
  }

  lemma CutNotShorter(a: string, b: string, x: string, y: string, level: nat)
    requires Balanced(a, level) && Balanced(b, level) && Ends(x, level)
    requires a + x == b + y
    ensures |a| >= |b|
  {
    var whole := a + x;
    assert whole[..|a|] == a && whole[..|b|] == b;
    if |a| < |b| {
      assert a == b[..|a|] && b[|a|] == whole[|a|] == x[0];
      NoStopInside(a, b, level);
    }
  }

  // Parts separated by colons: every part but the last is free of colons.
  lemma {:induction false} SplitParts(ps: seq<string>, qs: seq<string>)
    requires |ps| == |qs| > 0
    requires forall i :: 0 <= i < |ps| - 1 ==> Balanced(ps[i], 2) && Balanced(qs[i], 2)
    requires Join(ps, ':') == Join(qs, ':')
    ensures ps == qs
  {
    if |ps| > 1 {
      var x, y := ":" + Join(ps[1..], ':'), ":" + Join(qs[1..], ':');
      assert Join(ps, ':') == ps[0] + x && Join(qs, ':') == qs[0] + y;
      Cut(ps[0], qs[0], x, y, 2);
      assert x[1..] == Join(ps[1..], ':') && y[1..] == Join(qs[1..], ':');
      forall i | 0 <= i < |ps| - 2 ensures Balanced(ps[1..][i], 2) && Balanced(qs[1..][i], 2) {
        assert ps[1..][i] == ps[i + 1] && qs[1..][i] == qs[i + 1];
      }
      SplitParts(ps[1..], qs[1..]);
      assert ps == [ps[0]] + ps[1..] && qs == [qs[0]] + qs[1..];
    }
  }

  lemma {:induction false} PartsBalanced(ps: seq<string>)
    requires |ps| > 0 && forall i :: 0 <= i < |ps| ==> Balanced(ps[i], 1)
    ensures Balanced(Join(ps, ':'), 1)
  {
    if |ps| > 1 {
      forall i | 0 <= i < |ps| - 1 ensures Balanced(ps[1..][i], 1) { assert ps[1..][i] == ps[i + 1]; }
      PartsBalanced(ps[1..]);
      CharBalanced(':', 1);
      BalancedAppend(ps[0], ":", 1);
      BalancedAppend(ps[0] + ":", Join(ps[1..], ':'), 1);
    }
  }

  // An item of a comma- or bar-separated list.
  predicate IsItem(s: string) { |s| > 0 && Balanced(s, 1) }

  predicate AllItems(ss: seq<string>) { forall i :: 0 <= i < |ss| ==> IsItem(ss[i]) }

  lemma AllItemsSorted(ss: seq<string>)
    requires AllItems(ss)
    ensures AllItems(Sort(ss))
  {
    forall i | 0 <= i < |Sort(ss)| ensures IsItem(Sort(ss)[i]) {
      assert Sort(ss)[i] in multiset(Sort(ss));
      assert Sort(ss)[i] in ss;
    }
  }

  lemma {:induction false} ItemsBalanced(ss: seq<string>, sep: char)
    requires AllItems(ss) && (sep == ',' || sep == '|')
    ensures Balanced(Join(ss, sep), 0)
  {
    if |ss| == 1 {
      Weaken(ss[0], 1, 0);
    } else if |ss| > 1 {
      assert IsItem(ss[0]);
      Weaken(ss[0], 1, 0);
      assert AllItems(ss[1..]);
      ItemsBalanced(ss[1..], sep);
      CharBalanced(sep, 0);
      BalancedAppend(ss[0], [sep], 0);
      BalancedAppend(ss[0] + [sep], Join(ss[1..], sep), 0);
    }
  }

  lemma {:induction false} SplitItems(ss: seq<string>, tt: seq<string>, sep: char)
    requires AllItems(ss) && AllItems(tt) && (sep == ',' || sep == '|')
    requires Join(ss, sep) == Join(tt, sep)
    ensures ss == tt
  {
    if |ss| == 0 || |tt| == 0 {
      assert |ss| > 0 ==> IsItem(ss[0]);
      assert |tt| > 0 ==> IsItem(tt[0]);
    } else {
      var x := if |ss| == 1 then "" else [sep] + Join(ss[1..], sep);
      var y := if |tt| == 1 then "" else [sep] + Join(tt[1..], sep);
      assert Join(ss, sep) == ss[0] + x && Join(tt, sep) == tt[0] + y;
      assert IsItem(ss[0]) && IsItem(tt[0]);
      Cut(ss[0], tt[0], x, y, 1);
      assert |x| > 0 ==> x[1..] == Join(ss[1..], sep);
      assert |y| > 0 ==> y[1..] == Join(tt[1..], sep);
      assert AllItems(ss[1..]) && AllItems(tt[1..]);
      SplitItems(ss[1..], tt[1..], sep);
      assert ss == [ss[0]] + ss[1..] && tt == [tt[0]] + tt[1..];
    }
  }
}
