/**
 internal/consensusvectors/consensusvectors.go: the token walk that refuses a JSON
 document in which some object repeats a member name.

 The three `Check` methods are the source's mutually recursive walk over a stateful
 decoder. Their specification is the functional walk, and `WalkDocument` relates that walk
 to the document's tree: it consumes exactly the document, and reports a duplicate exactly
 when some object at some depth has one. On malformed text the code need not return;
 `WalkEnds` says when it does, of the same walk taken step by step.
 */
module JsonWalk {
  datatype Token = OpenObject | CloseObject | OpenArray | CloseArray | Text(text: string) | Scalar

  /** A JSON document; `Leaf` stands for a number, a boolean or null. */
  datatype Json = Leaf | Str(s: string) | Arr(items: seq<Json>) | Obj(members: seq<Member>)
  datatype Member = Member(name: string, value: Json)

  function Tokens(v: Json): (ts: seq<Token>)
    ensures |ts| > 0 && ts[0] != CloseObject && ts[0] != CloseArray
    decreases v, 1
  {
    match v
    case Leaf => [Scalar]
    case Str(s) => [Text(s)]
    case Arr(items) => [OpenArray] + ItemTokens(items) + [CloseArray]
    case Obj(members) => [OpenObject] + MemberTokens(members) + [CloseObject]
  }

  function ItemTokens(items: seq<Json>): seq<Token>
    decreases items, 0
  {
    if items == [] then [] else Tokens(items[0]) + ItemTokens(items[1..])
  }

  function MemberTokens(members: seq<Member>): seq<Token>
    decreases members, 0
  {
    if members == [] then []
    else [Text(members[0].name)] + Tokens(members[0].value) + MemberTokens(members[1..])
  }

  /** Some object in the document, at any depth, has two members of the same name. */
  ghost predicate RepeatsName(v: Json)
    decreases v
  {
    match v
    case Leaf => false
    case Str(_) => false
    case Arr(items) => exists i :: 0 <= i < |items| && RepeatsName(items[i])
    case Obj(members) =>
      || (exists i, j :: 0 <= i < j < |members| && members[i].name == members[j].name)
      || (exists i :: 0 <= i < |members| && RepeatsName(members[i].value))
  }

  /**
   The walk's answer: a repeated name, or the tokens left unread. `open` says that an array was
   still open when the tokens ran out; whether the walk then ends is up to what follows them.
   */
  datatype Walk = Clean(rest: seq<Token>, open: bool) | Duplicate

  /** What the decoder's `More` answers before the tokens `ts`. */
  predicate More(ts: seq<Token>) {
    ts != [] && ts[0] != CloseObject && ts[0] != CloseArray
  }

  function Rest(ts: seq<Token>): seq<Token> {
    if ts == [] then [] else ts[1..]
  }

  function WalkValue(ts: seq<Token>): (w: Walk)
    ensures w.Clean? ==> |w.rest| <= |ts| && (ts != [] ==> |w.rest| < |ts|) && (w.open ==> w.rest == [])
    decreases |ts|, 0
  {
    if ts == [] then Clean([], false)
    else match ts[0]
      case OpenObject => WalkObject(ts[1..], {})
      case OpenArray => WalkArray(ts[1..])
      case _ => Clean(ts[1..], false)
  }

  function WalkObject(ts: seq<Token>, seen: set<string>): (w: Walk)
    ensures w.Clean? ==> |w.rest| <= |ts| && (w.open ==> w.rest == [])
    decreases |ts|, 1
  {
    if !More(ts) then Clean(Rest(ts), false)
    else if !ts[0].Text? then Clean(ts[1..], false)
    else if ts[0].text in seen then Duplicate
    else match WalkValue(ts[1..])
      case Duplicate => Duplicate
      case Clean(rest, open) => if open then Clean([], true) else WalkObject(rest, seen + {ts[0].text})
  }

  function WalkArray(ts: seq<Token>): (w: Walk)
    ensures w.Clean? ==> |w.rest| <= |ts| && (w.open ==> w.rest == [])
    decreases |ts|, 1
  {
    if !More(ts) then Clean(Rest(ts), ts == [])
    else match WalkValue(ts)
      case Duplicate => Duplicate
      case Clean(rest, _) => WalkArray(rest)
  }

  /** The walk over any document consumes exactly it, unless some name is repeated. */
  lemma {:induction false} WalkDocument(v: Json, rest: seq<Token>)
    ensures WalkValue(Tokens(v) + rest) == if RepeatsName(v) then Duplicate else Clean(rest, false)
    decreases v, 1
  {
    match v
    case Leaf =>
    case Str(_) =>
    case Arr(items) =>
      WalkItems(items, rest);
      Opened(OpenArray, ItemTokens(items), [CloseArray], rest);
    case Obj(members) =>
      WalkMembers(members, {}, rest);
      Opened(OpenObject, MemberTokens(members), [CloseObject], rest);
  }

  lemma Opened(open: Token, inner: seq<Token>, close: seq<Token>, rest: seq<Token>)
    ensures ([open] + inner + close + rest)[0] == open
    ensures ([open] + inner + close + rest)[1..] == inner + close + rest
  {
  }

  lemma {:induction false} WalkItems(items: seq<Json>, rest: seq<Token>)
    ensures WalkArray(ItemTokens(items) + [CloseArray] + rest)
         == if exists i :: 0 <= i < |items| && RepeatsName(items[i]) then Duplicate else Clean(rest, false)
    decreases items, 0
  {
    var ts := ItemTokens(items) + [CloseArray] + rest;
    if items == [] {
      assert ts == [CloseArray] + rest;
    } else {
      var after := ItemTokens(items[1..]) + [CloseArray] + rest;
      assert ts == Tokens(items[0]) + after;
      WalkDocument(items[0], after);
      WalkItems(items[1..], rest);
      assert forall i :: 0 < i < |items| ==> items[i] == items[1..][i - 1];
    }
  }

  /** A name among `seen`, a name twice, or a bad value. */
  ghost predicate BadMembers(members: seq<Member>, seen: set<string>)
    decreases members, 1
  {
    || (exists i :: 0 <= i < |members| && members[i].name in seen)
    || (exists i, j :: 0 <= i < j < |members| && members[i].name == members[j].name)
    || (exists i :: 0 <= i < |members| && RepeatsName(members[i].value))
  }

  lemma BadMembersStep(members: seq<Member>, seen: set<string>)
    requires members != []
    ensures BadMembers(members, seen) <==>
              || members[0].name in seen || RepeatsName(members[0].value)
              || BadMembers(members[1..], seen + {members[0].name})
  {
    hide RepeatsName;
    var tail := members[1..];
    assert forall i :: 0 < i < |members| ==> members[i] == tail[i - 1];
    assert forall i :: 0 <= i < |tail| ==> tail[i] == members[i + 1];
  }

  lemma {:induction false} WalkMembers(members: seq<Member>, seen: set<string>, rest: seq<Token>)
    ensures WalkObject(MemberTokens(members) + [CloseObject] + rest, seen)
         == if BadMembers(members, seen) then Duplicate else Clean(rest, false)
    decreases members, 0
  {
    var ts := MemberTokens(members) + [CloseObject] + rest;
    if members == [] {
      assert ts == [CloseObject] + rest;
    } else {
      hide BadMembers, RepeatsName;
      var name, tail := members[0].name, members[1..];
      var after := MemberTokens(tail) + [CloseObject] + rest;
      assert ts == [Text(name)] + Tokens(members[0].value) + after;
      assert ts[1..] == Tokens(members[0].value) + after;
      WalkDocument(members[0].value, after);
      WalkMembers(tail, seen + {name}, rest);
      BadMembersStep(members, seen);
    }
  }

  // ----- Where the tokens run out -----

  /** How many arrays the tokens open and do not close. */
  function OpenArrays(ts: seq<Token>): int {
    if ts == [] then 0
    else OpenArrays(ts[..|ts| - 1]) + match ts[|ts| - 1] case OpenArray => 1 case CloseArray => -1 case _ => 0
  }

  lemma {:induction false} OpenArraysOf(s: seq<Token>, t: seq<Token>)
    ensures OpenArrays(s + t) == OpenArrays(s) + OpenArrays(t)
    decreases |t|
  {
    if t == [] {
      assert s + t == s;
    } else {
      assert (s + t)[..|s + t| - 1] == s + t[..|t| - 1];
      OpenArraysOf(s, t[..|t| - 1]);
    }
  }

  lemma OneToken(t: Token)
    ensures OpenArrays([t]) == match t case OpenArray => 1 case CloseArray => -1 case _ => 0
  {
    assert [t][..0] == [];
  }

  /** A whole document closes every array it opens. */
  lemma {:induction false} DocumentCloses(v: Json)
    ensures OpenArrays(Tokens(v)) == 0
    decreases v, 1
  {
    match v
    case Leaf => OneToken(Scalar);
    case Str(s) => OneToken(Text(s));
    case Arr(items) =>
      ItemsClose(items);
      Bracketed(OpenArray, ItemTokens(items), CloseArray);
    case Obj(members) =>
      MembersClose(members);
      Bracketed(OpenObject, MemberTokens(members), CloseObject);
  }

  lemma Bracketed(open: Token, inner: seq<Token>, close: Token)
    ensures OpenArrays([open] + inner + [close]) == OpenArrays([open]) + OpenArrays(inner) + OpenArrays([close])
    ensures open == OpenArray && close == CloseArray ==> OpenArrays([open]) + OpenArrays([close]) == 0
    ensures open == OpenObject && close == CloseObject ==> OpenArrays([open]) == OpenArrays([close]) == 0
  {
    OpenArraysOf([open] + inner, [close]);
    OpenArraysOf([open], inner);
    OneToken(open);
    OneToken(close);
  }

  lemma {:induction false} ItemsClose(items: seq<Json>)
    ensures OpenArrays(ItemTokens(items)) == 0
    decreases items, 0
  {
    if items != [] {
      DocumentCloses(items[0]);
      ItemsClose(items[1..]);
      OpenArraysOf(Tokens(items[0]), ItemTokens(items[1..]));
    }
  }

  lemma {:induction false} MembersClose(members: seq<Member>)
    ensures OpenArrays(MemberTokens(members)) == 0
    decreases members, 0
  {
    if members != [] {
      var name, value, tail := [Text(members[0].name)], Tokens(members[0].value), MemberTokens(members[1..]);
      DocumentCloses(members[0].value);
      MembersClose(members[1..]);
      OneToken(name[0]);
      OpenArraysOf(name + value, tail);
      OpenArraysOf(name, value);
    }
  }

  /** The walk of a text cut short: a repeated name before the cut, or an array open at it or not. */
  predicate Cut(w: Walk, ts: seq<Token>) {
    OpenArrays(ts) >= 0 && (w == Duplicate || w == Clean([], OpenArrays(ts) > 0))
  }

  /** A document cut off anywhere leaves an array open exactly when it opened more than it closed. */
  lemma {:induction false} DocumentCut(v: Json, n: nat)
    requires n < |Tokens(v)|
    ensures Cut(WalkValue(Tokens(v)[..n]), Tokens(v)[..n])
    decreases v, 1
  {
    hide OpenArrays, WalkArray, WalkObject, RepeatsName, ItemTokens, MemberTokens;
    NothingWalked({});
    var ts := Tokens(v)[..n];
    if n > 0 {
      var inner := ts[1..];
      assert ts == [ts[0]] + inner;
      OpenArraysOf([ts[0]], inner);
      OneToken(ts[0]);
      match v
      case Arr(items) =>
        assert inner == (ItemTokens(items) + [CloseArray])[..n - 1];
        ItemsCut(items, n - 1);
      case Obj(members) =>
        assert inner == (MemberTokens(members) + [CloseObject])[..n - 1];
        MembersCut(members, {}, n - 1);
    }
  }

  lemma {:induction false} ItemsCut(items: seq<Json>, n: nat)
    requires n <= |ItemTokens(items)|
    ensures var ts := (ItemTokens(items) + [CloseArray])[..n];
            OpenArrays(ts) >= 0 && (WalkArray(ts) == Duplicate || WalkArray(ts) == Clean([], true))
    decreases items, 0
  {
    hide RepeatsName, Tokens, OpenArrays, WalkValue;
    NothingWalked({});
    var ts := (ItemTokens(items) + [CloseArray])[..n];
    if n > 0 {
      var first := Tokens(items[0]);
      if n < |first| {
        assert ts == first[..n] && ts[0] == first[0];
        DocumentCut(items[0], n);
        assert WalkArray([]) == Clean([], true);
      } else {
        var rest := (ItemTokens(items[1..]) + [CloseArray])[..n - |first|];
        assert ts == first + rest;
        WalkDocument(items[0], rest);
        DocumentCloses(items[0]);
        OpenArraysOf(first, rest);
        ItemsCut(items[1..], n - |first|);
      }
    }
  }

  /** One member's name read. */
  lemma MemberWalk(name: string, after: seq<Token>, seen: set<string>)
    ensures WalkObject([Text(name)] + after, seen) ==
            if name in seen then Duplicate
            else match WalkValue(after)
              case Duplicate => Duplicate
              case Clean(rest, open) => if open then Clean([], true) else WalkObject(rest, seen + {name})
  {
    assert ([Text(name)] + after)[1..] == after;
  }

  lemma NothingWalked(seen: set<string>)
    ensures WalkObject([], seen) == Clean([], false) && OpenArrays([]) == 0
  {
  }

  lemma {:induction false} MembersCut(members: seq<Member>, seen: set<string>, n: nat)
    requires n <= |MemberTokens(members)|
    ensures var ts := (MemberTokens(members) + [CloseObject])[..n]; Cut(WalkObject(ts, seen), ts)
    decreases members, 0
  {
    hide WalkObject, WalkValue, Tokens, OpenArrays, RepeatsName;
    var ts := (MemberTokens(members) + [CloseObject])[..n];
    NothingWalked(seen);
    if n > 0 {
      var name, value := members[0].name, Tokens(members[0].value);
      var after := ts[1..];
      assert ts == [Text(name)] + after;
      OpenArraysOf([Text(name)], after);
      OneToken(Text(name));
      MemberWalk(name, after, seen);
      if n - 1 < |value| {
        assert after == value[..n - 1];
        DocumentCut(members[0].value, n - 1);
        NothingWalked(seen + {name});
      } else {
        var rest := (MemberTokens(members[1..]) + [CloseObject])[..n - 1 - |value|];
        assert after == value + rest;
        WalkDocument(members[0].value, rest);
        DocumentCloses(members[0].value);
        OpenArraysOf(value, rest);
        MembersCut(members[1..], seen + {name}, n - 1 - |value|);
      }
    }
  }

  // ----- Whether the walk ends -----

  /**
   What follows the last token. `Ended`: nothing, or a bracket that does not belong there, so
   `More` answers no. `Comma`: a comma before such an end, at which `More` answers yes until
   a failing `Token` has passed it. `Stuck`: anything else that is no token, at which `More`
   answers yes, because it looks at one character, and `Token` fails in place.
   */
  datatype Tail = Ended | Comma | Stuck

  /** The tail after a `Token` that failed. */
  function Failed(tail: Tail): Tail {
    if tail == Comma then Ended else tail
  }

  datatype Frame = InObject(seen: set<string>) | InArray

  /**
   The walk step by step: about to read a value, at the head of the innermost loop, or done.
   The frames are the calls still open, the innermost first.
   */
  datatype State =
    | Value(ts: seq<Token>, tail: Tail, frames: seq<Frame>)
    | Loop(ts: seq<Token>, tail: Tail, frames: seq<Frame>)
    | Done(duplicate: bool)

  /** A call returns without a duplicate: to its caller's loop, or from the walk. */
  function Return(ts: seq<Token>, tail: Tail, frames: seq<Frame>): State {
    if frames == [] then Done(false) else Loop(ts, tail, frames)
  }

  function Step(s: State): State {
    match s
    case Done(_) => s
    case Value(ts, tail, frames) =>
      if ts == [] then Return([], Failed(tail), frames)
      else (match ts[0]
            case OpenObject => Loop(ts[1..], tail, [InObject({})] + frames)
            case OpenArray => Loop(ts[1..], tail, [InArray] + frames)
            case _ => Return(ts[1..], tail, frames))
    case Loop(ts, tail, frames) =>
      if frames == [] then Done(false)
      else
        var more := if ts == [] then tail != Ended else More(ts);
        if !more then Return(Rest(ts), if ts == [] then Failed(tail) else tail, frames[1..])
        else match frames[0]
          case InArray => Value(ts, tail, frames)
          case InObject(seen) =>
            if ts == [] then Return([], Failed(tail), frames[1..])
            else if !ts[0].Text? then Return(ts[1..], tail, frames[1..])
            else if ts[0].text in seen then Done(true)
            else Value(ts[1..], tail, [InObject(seen + {ts[0].text})] + frames[1..])
  }

  function After(s: State, n: nat): State
    decreases n
  {
    if n == 0 then s else After(Step(s), n - 1)
  }

  lemma {:induction false} AfterSum(s: State, m: nat, n: nat)
    ensures After(s, m + n) == After(After(s, m), n)
    decreases m
  {
    if m > 0 { AfterSum(Step(s), m - 1, n); }
  }

  ghost predicate Halts(s: State) {
    exists n: nat :: After(s, n).Done?
  }

  /** An array loop at bytes that are no token repeats its own state, two steps apart. */
  lemma ArrayLoops(frames: seq<Frame>)
    ensures var s := Loop([], Stuck, [InArray] + frames); Step(Step(s)) == s && !s.Done? && !Step(s).Done?
  {
  }

  /** In the smallest such document, an opening bracket and then a byte that starts no token. */
  lemma StuckAtOnce()
    ensures var s := Value([OpenArray], Stuck, []);
            && WalkValue([OpenArray]) == Clean([], true) && OpenArrays([OpenArray]) == 1
            && Step(Step(Step(s))) == Step(s) && !Halts(s)
  {
    var s := Value([OpenArray], Stuck, []);
    OneToken(OpenArray);
    ArrayLoops([]);
    assert [InArray] + [] == [InArray];
    NeverDone(s, 1, []);
  }

  lemma {:induction false} LoopStays(frames: seq<Frame>, n: nat)
    ensures !After(Loop([], Stuck, [InArray] + frames), n).Done?
    decreases n
  {
    ArrayLoops(frames);
    if n >= 2 { LoopStays(frames, n - 2); }
  }

  lemma {:induction false} DoneStays(s: State, n: nat)
    requires s.Done?
    ensures After(s, n) == s
    decreases n
  {
    if n > 0 { DoneStays(s, n - 1); }
  }

  /** A walk that comes to such a loop never ends. */
  lemma NeverDone(s: State, m: nat, frames: seq<Frame>)
    requires After(s, m) == Loop([], Stuck, [InArray] + frames)
    ensures !Halts(s)
  {
    forall n: nat ensures !After(s, n).Done? {
      if n < m {
        AfterSum(s, n, m - n);
        if After(s, n).Done? { DoneStays(After(s, n), m - n); }
      } else {
        AfterSum(s, m, n - m);
        LoopStays(frames, n - m);
      }
    }
  }

  /** The tokens run out inside an open array, and what follows keeps `More` answering yes. */
  predicate Endless(w: Walk, tail: Tail) {
    w.Clean? && w.open && tail == Stuck
  }

  /** A failed `Token` passes a comma and nothing else. */
  predicate Later(tail: Tail, tail': Tail) {
    tail' == tail || tail' == Failed(tail)
  }

  /** What a call of the walk comes to: its answer, or the endless loop of an array it is in. */
  ghost predicate Comes(s: State, n: nat, w: Walk, tail: Tail, frames: seq<Frame>) {
    if Endless(w, tail) then exists fs :: After(s, n) == Loop([], Stuck, [InArray] + fs)
    else match w
      case Duplicate => After(s, n) == Done(true)
      case Clean(rest, _) => exists tail' :: Later(tail, tail') && After(s, n) == Return(rest, tail', frames)
  }

  lemma ComesAfter(s: State, m: nat, n: nat, s': State, w: Walk, tail: Tail, tail': Tail, frames: seq<Frame>)
    requires After(s, m) == s' && Comes(s', n, w, tail', frames) && Later(tail, tail')
    ensures Comes(s, m + n, w, tail, frames)
  {
    AfterSum(s, m, n);
  }

  lemma {:induction false} ValueComes(ts: seq<Token>, tail: Tail, frames: seq<Frame>) returns (n: nat)
    ensures Comes(Value(ts, tail, frames), n, WalkValue(ts), tail, frames)
    decreases |ts|, 0
  {
    var s := Value(ts, tail, frames);
    n := 1;
    assert After(s, 1) == Step(s);
    if ts != [] && ts[0] == OpenObject {
      var k := ObjectComes(ts[1..], tail, {}, frames);
      ComesAfter(s, 1, k, Step(s), WalkValue(ts), tail, tail, frames);
      n := 1 + k;
    } else if ts != [] && ts[0] == OpenArray {
      var k := ArrayComes(ts[1..], tail, frames);
      ComesAfter(s, 1, k, Step(s), WalkValue(ts), tail, tail, frames);
      n := 1 + k;
    }
  }

  lemma {:induction false} ObjectComes(ts: seq<Token>, tail: Tail, seen: set<string>, frames: seq<Frame>)
    returns (n: nat)
    ensures Comes(Loop(ts, tail, [InObject(seen)] + frames), n, WalkObject(ts, seen), tail, frames)
    decreases |ts|, 1
  {
    var s := Loop(ts, tail, [InObject(seen)] + frames);
    assert s.frames[1..] == frames;
    assert After(s, 1) == Step(s);
    n := 1;
    if More(ts) && ts[0].Text? && ts[0].text !in seen {
      var inner := [InObject(seen + {ts[0].text})] + frames;
      var k := ValueComes(ts[1..], tail, inner);
      var w := WalkValue(ts[1..]);
      if w == Duplicate || Endless(w, tail) {
        AfterSum(s, 1, k);
        n := 1 + k;
      } else {
        var tail' :| Later(tail, tail') && After(Step(s), k) == Return(w.rest, tail', inner);
        AfterSum(s, 1, k);
        var l := ObjectComes(w.rest, tail', seen + {ts[0].text}, frames);
        ComesAfter(s, 1 + k, l, Loop(w.rest, tail', inner), WalkObject(w.rest, seen + {ts[0].text}), tail, tail',
                   frames);
        n := 1 + k + l;
      }
    }
  }

  lemma {:induction false} ArrayComes(ts: seq<Token>, tail: Tail, frames: seq<Frame>) returns (n: nat)
    ensures Comes(Loop(ts, tail, [InArray] + frames), n, WalkArray(ts), tail, frames)
    decreases |ts|, 1
  {
    var s := Loop(ts, tail, [InArray] + frames);
    assert s.frames[1..] == frames;
    assert After(s, 1) == Step(s);
    n := 1;
    if More(ts) {
      var inner := [InArray] + frames;
      var k := ValueComes(ts, tail, inner);
      var w := WalkValue(ts);
      if w == Duplicate || Endless(w, tail) {
        AfterSum(s, 1, k);
        n := 1 + k;
        assert WalkArray(ts) == w || (Endless(WalkArray(ts), tail) && Endless(w, tail));
      } else {
        var tail' :| Later(tail, tail') && After(Step(s), k) == Return(w.rest, tail', inner);
        AfterSum(s, 1, k);
        var l := ArrayComes(w.rest, tail', frames);
        ComesAfter(s, 1 + k, l, Loop(w.rest, tail', inner), WalkArray(w.rest), tail, tail', frames);
        n := 1 + k + l;
      }
    } else if ts == [] && tail == Stuck {
      n := 0;
      assert After(s, 0) == Loop([], Stuck, [InArray] + frames);
    } else if ts == [] && tail == Comma {
      CommaPassed(frames);
      n := 3;
    }
  }

  /** At a comma before the end an array loop tries one more item and then closes. */
  lemma CommaPassed(frames: seq<Frame>)
    ensures After(Loop([], Comma, [InArray] + frames), 3) == Return([], Ended, frames)
  {
    var s := Loop([], Comma, [InArray] + frames);
    assert s.frames[1..] == frames;
    assert Step(s) == Value([], Comma, [InArray] + frames);
    assert Step(Step(s)) == Loop([], Ended, [InArray] + frames);
    assert Step(Step(Step(s))) == Return([], Ended, frames);
    assert After(s, 3) == After(Step(s), 2) == After(Step(Step(s)), 1) == After(Step(Step(Step(s))), 0);
  }

  /**
   The walk over any tokens, whatever follows them, ends if and only if it is not true that the
   tokens run out inside an open array, no name having been repeated, before bytes that are no
   token. When it ends, its answer is the functional walk's.
   */
  lemma WalkEnds(ts: seq<Token>, tail: Tail)
    ensures Halts(Value(ts, tail, [])) <==> !Endless(WalkValue(ts), tail)
    ensures !Endless(WalkValue(ts), tail) ==>
              exists n: nat :: After(Value(ts, tail, []), n) == Done(WalkValue(ts) == Duplicate)
  {
    var s := Value(ts, tail, []);
    var n := ValueComes(ts, tail, []);
    if Endless(WalkValue(ts), tail) {
      var fs :| After(s, n) == Loop([], Stuck, [InArray] + fs);
      NeverDone(s, n, fs);
    } else {
      assert After(s, n) == Done(WalkValue(ts) == Duplicate);
    }
  }

  /** Over a document followed by anything the walk ends; its loops never reach what follows. */
  lemma DocumentEnds(v: Json, rest: seq<Token>, tail: Tail)
    ensures Halts(Value(Tokens(v) + rest, tail, []))
  {
    WalkDocument(v, rest);
    WalkEnds(Tokens(v) + rest, tail);
  }

  /** Over a document broken off by bytes that are no token, it is a matter of counting brackets. */
  lemma BrokenDocumentEnds(v: Json, n: nat, tail: Tail)
    requires n < |Tokens(v)|
    ensures var ts := Tokens(v)[..n];
            Halts(Value(ts, tail, [])) <==> WalkValue(ts) == Duplicate || tail != Stuck || OpenArrays(ts) == 0
  {
    DocumentCut(v, n);
    WalkEnds(Tokens(v)[..n], tail);
  }

  // ----- The code -----

  /** The streaming decoder: the tokens it has still to deliver, and what follows them. */
  class Decoder {
    var pending: seq<Token>
    var tail: Tail

    constructor (tokens: seq<Token>, tail: Tail)
      ensures pending == tokens && this.tail == tail
    {
      this.pending, this.tail := tokens, tail;
    }

    method HasMore() returns (more: bool)
      ensures more == if pending == [] then tail != Ended else More(pending)
    {
      if pending == [] { return tail != Ended; }
      more := pending[0] != CloseObject && pending[0] != CloseArray;
    }

    method Token() returns (ok: bool, token: Token)
      modifies this
      ensures ok == (old(pending) != [])
      ensures ok ==> token == old(pending)[0]
      ensures pending == Rest(old(pending)) && tail == if ok then old(tail) else Failed(old(tail))
    {
      if pending == [] {
        tail := Failed(tail);
        return false, Scalar;
      }
      ok, token := true, pending[0];
      pending := pending[1..];
    }
  }

  /** A call left the decoder at `w`'s rest, or found the repeated name. */
  ghost predicate Answered(w: Walk, duplicate: bool, rest: seq<Token>, tail: Tail, tail': Tail) {
    Later(tail, tail') && if duplicate then w == Duplicate else w.Clean? && w.rest == rest
  }

  /** `requires` exactly what the walk needs in order to end. */
  method RejectDuplicateKeys(data: seq<Token>, tail: Tail) returns (duplicate: bool)
    requires Halts(Value(data, tail, []))
    ensures duplicate == (WalkValue(data) == Duplicate)
  {
    WalkEnds(data, tail);
    var decoder := new Decoder(data, tail);
    duplicate := CheckJSONValue(decoder);
  }

  /** A whole document is refused exactly when it repeats a name somewhere. */
  method RejectDuplicateKeysOf(ghost v: Json, data: seq<Token>, tail: Tail) returns (duplicate: bool)
    requires Tokens(v) <= data
    ensures duplicate <==> RepeatsName(v)
  {
    ghost var rest := data[|Tokens(v)|..];
    WalkDocument(v, rest);
    DocumentEnds(v, rest, tail);
    assert data == Tokens(v) + rest;
    duplicate := RejectDuplicateKeys(data, tail);
  }

  method CheckJSONValue(decoder: Decoder) returns (duplicate: bool)
    requires !Endless(WalkValue(decoder.pending), decoder.tail)
    modifies decoder
    ensures Answered(WalkValue(old(decoder.pending)), duplicate, decoder.pending, old(decoder.tail), decoder.tail)
    ensures old(decoder.pending) == [] ==> decoder.tail == Failed(old(decoder.tail))
    decreases |decoder.pending|, 0
  {
    var ok, token := decoder.Token();
    if !ok { return false; }
    match token
    case OpenObject => duplicate := CheckJSONObject(decoder);
    case OpenArray => duplicate := CheckJSONArray(decoder);
    case _ => duplicate := false;
  }

  method CheckJSONObject(decoder: Decoder) returns (duplicate: bool)
    requires !Endless(WalkObject(decoder.pending, {}), decoder.tail)
    modifies decoder
    ensures Answered(WalkObject(old(decoder.pending), {}), duplicate, decoder.pending, old(decoder.tail), decoder.tail)
    decreases |decoder.pending|, 1
  {
    var seen: set<string> := {};
    var more := decoder.HasMore();
    ghost var open := false;
    while more
      invariant |decoder.pending| <= |old(decoder.pending)|
      invariant Later(old(decoder.tail), decoder.tail)
      invariant more == if decoder.pending == [] then decoder.tail != Ended else More(decoder.pending)
      invariant if open then decoder.pending == [] && WalkObject(old(decoder.pending), {}) == Clean([], true)
                else WalkObject(old(decoder.pending), {}) == WalkObject(decoder.pending, seen)
      decreases |decoder.pending|
    {
      var ok, token := decoder.Token();
      if !ok { return false; }
      if !token.Text? { return false; }
      if token.text in seen { return true; }
      seen := seen + {token.text};
      ghost var w := WalkValue(decoder.pending);
      open := w.Clean? && w.open;
      duplicate := CheckJSONValue(decoder);
      if duplicate { return true; }
      more := decoder.HasMore();
    }
    var _, _ := decoder.Token(); // closing brace
    duplicate := false;
  }

  method CheckJSONArray(decoder: Decoder) returns (duplicate: bool)
    requires !Endless(WalkArray(decoder.pending), decoder.tail)
    modifies decoder
    ensures Answered(WalkArray(old(decoder.pending)), duplicate, decoder.pending, old(decoder.tail), decoder.tail)
    decreases |decoder.pending|, 1
  {
    var more := decoder.HasMore();
    while more
      invariant |decoder.pending| <= |old(decoder.pending)|
      invariant Later(old(decoder.tail), decoder.tail)
      invariant more == if decoder.pending == [] then decoder.tail != Ended else More(decoder.pending)
      invariant WalkArray(old(decoder.pending)) == WalkArray(decoder.pending)
      decreases |decoder.pending| + if decoder.tail == Comma then 1 else 0
    {
      duplicate := CheckJSONValue(decoder);
      if duplicate { return true; }
      more := decoder.HasMore();
    }
    var _, _ := decoder.Token(); // closing bracket
    duplicate := false;
  }
}
