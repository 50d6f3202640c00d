/**
 * `ASRService._split_sentences` (in `app/asr_service.py`; line numbers below
 * refer to that file): sentences end at runs of `。！？!?`, which stay with
 * the text before them.
 */
module Segmenter {
  import opened PyStr

  predicate IsTerminal(c: char) {
    c == '。' || c == '！' || c == '？' || c == '!' || c == '?'
  }

  predicate NoTerminal(s: string) {
    forall i :: 0 <= i < |s| ==> !IsTerminal(s[i])
  }

  predicate AllTerminal(s: string) {
    forall i :: 0 <= i < |s| ==> IsTerminal(s[i])
  }

  /**
   * `re.split(r'([。！？!?]+)', s)`: the text between maximal runs of
   * terminal punctuation, with each run kept as a part of its own, so text
   * and runs alternate and the first and last parts are text.
   */
  function SplitTerminal(s: string): (parts: seq<string>)
    ensures |parts| >= 1
    ensures Concat(parts) == s
    decreases |s|
  {
    if s == [] then [[]]
    else
      var rest := SplitTerminal(s[1..]);
      var c := s[0];
      assert [c] + s[1..] == s;
      if !IsTerminal(c) then
        ConcatTextStep(c, rest, s[1..]);
        [[c] + rest[0]] + rest[1..]
      else if rest[0] == [] && |rest| > 1 then
        ConcatJoinStep(c, rest, s[1..]);
        [[], [c] + rest[1]] + rest[2..]
      else
        ConcatNewStep(c, rest, s[1..]);
        [[], [c]] + rest
  }

  /** A text character joins the first part. */
  lemma ConcatTextStep(c: char, rest: seq<string>, t: string)
    requires |rest| >= 1 && Concat(rest) == t
    ensures Concat([[c] + rest[0]] + rest[1..]) == [c] + t
  {
    assert Concat(rest) == rest[0] + Concat(rest[1..]);
    ConcatAppend([[c] + rest[0]], rest[1..]);
    ConcatSingle([c] + rest[0]);
  }

  /** A terminal joins the run that follows an empty first part. */
  lemma ConcatJoinStep(c: char, rest: seq<string>, t: string)
    requires |rest| > 1 && rest[0] == [] && Concat(rest) == t
    ensures Concat([[], [c] + rest[1]] + rest[2..]) == [c] + t
  {
    assert rest[..2] + rest[2..] == rest;
    ConcatAppend(rest[..2], rest[2..]);
    ConcatTwo(rest[..2]);
    ConcatAppend([[], [c] + rest[1]], rest[2..]);
    ConcatTwo([[], [c] + rest[1]]);
    JoinAssoc(c, rest[0], rest[1], Concat(rest[2..]));
  }

  lemma JoinAssoc(c: char, e: string, b: string, r: string)
    requires e == []
    ensures ([] + ([c] + b)) + r == [c] + ((e + b) + r)
  {
    assert e + b == b && [] + ([c] + b) == [c] + b;
    assert ([c] + b) + r == [c] + (b + r);
  }

  /** A terminal starts a run of its own. */
  lemma ConcatNewStep(c: char, rest: seq<string>, t: string)
    requires Concat(rest) == t
    ensures Concat([[], [c]] + rest) == [c] + t
  {
    ConcatAppend([[], [c]], rest);
    ConcatTwo([[], [c]]);
  }

  /** The parts alternate text without terminals and non-empty runs of terminals; every inner text part is non-empty. */
  predicate WellSplit(parts: seq<string>) {
    && |parts| % 2 == 1
    && (forall k :: 0 <= k < |parts| && k % 2 == 0 ==> NoTerminal(parts[k]))
    && (forall k :: 0 <= k < |parts| && k % 2 == 1 ==> parts[k] != [] && AllTerminal(parts[k]))
    && (forall k :: 0 < k < |parts| - 1 && k % 2 == 0 ==> parts[k] != [])
  }

  /** One step of `SplitTerminal`: how the first character joins the parts of the rest. */
  lemma SplitTerminalCons(c: char, t: string)
    ensures var rest := SplitTerminal(t);
            SplitTerminal([c] + t) ==
              if !IsTerminal(c) then [[c] + rest[0]] + rest[1..]
              else if rest[0] == [] && |rest| > 1 then [[], [c] + rest[1]] + rest[2..]
              else [[], [c]] + rest
  {
    assert ([c] + t)[0] == c && ([c] + t)[1..] == t;
  }

  lemma {:induction false} SplitTerminalShape(s: string)
    ensures WellSplit(SplitTerminal(s))
    decreases |s|
  {
    if s != [] {
      SplitTerminalShape(s[1..]);
      assert s == [s[0]] + s[1..];
      SplitTerminalCons(s[0], s[1..]);
      var rest := SplitTerminal(s[1..]);
      var parts := SplitTerminal(s);
      if !IsTerminal(s[0]) {
        ShapeText(s[0], rest, parts);
      } else if rest[0] == [] && |rest| > 1 {
        ShapeJoinRun(s[0], rest, parts);
      } else {
        ShapeNewRun(s[0], rest, parts);
      }
    }
  }

  lemma ShapeText(c: char, rest: seq<string>, parts: seq<string>)
    requires WellSplit(rest) && !IsTerminal(c)
    requires parts == [[c] + rest[0]] + rest[1..]
    ensures WellSplit(parts)
  {
    assert parts[0] == [c] + rest[0];
    forall k | 1 <= k < |parts| ensures parts[k] == rest[k] { }
  }

  lemma ShapeJoinRun(c: char, rest: seq<string>, parts: seq<string>)
    requires WellSplit(rest) && IsTerminal(c) && rest[0] == [] && |rest| > 1
    requires parts == [[], [c] + rest[1]] + rest[2..]
    ensures WellSplit(parts)
  {
    assert parts[1] == [c] + rest[1];
    forall k | 2 <= k < |parts| ensures parts[k] == rest[k] { }
  }

  lemma ShapeNewRun(c: char, rest: seq<string>, parts: seq<string>)
    requires WellSplit(rest) && IsTerminal(c) && !(rest[0] == [] && |rest| > 1)
    requires parts == [[], [c]] + rest
    ensures WellSplit(parts)
  {
    forall k | 2 <= k < |parts| ensures parts[k] == rest[k - 2] { }
  }

  /** The sentence one joined pair contributes: stripped, and dropped when empty. */
  function Piece(s: string): seq<string> {
    var t := Strip(s);
    if t != [] then [t] else []
  }

  /** The sentences from the pairs of `ps`, taken two parts at a time from the front. */
  function Pairs(ps: seq<string>): seq<string>
    decreases |ps|
  {
    if |ps| < 2 then [] else Pairs(ps[..|ps| - 2]) + Piece(ps[|ps| - 2] + ps[|ps| - 1])
  }

  /** The trailing text after the last run, when it is not blank. */
  function Remainder(parts: seq<string>): seq<string> {
    if |parts| % 2 == 1 then Piece(parts[|parts| - 1]) else []
  }

  /** The sentences the pairs and the remainder yield, before the fallback to `[text]`. */
  function Sentences(text: string): seq<string> {
    var parts := SplitTerminal(text);
    Pairs(parts[..|parts| - 1]) + Remainder(parts)
  }

  /** The sentence list `_split_sentences(text)` returns. */
  function Segment(text: string): seq<string> {
    var ss := Sentences(text);
    if ss != [] then ss else [text]
  }

  lemma {:induction false} PairsStep(parts: seq<string>, i: nat)
    requires i + 2 <= |parts|
    ensures Pairs(parts[..i + 2]) == Pairs(parts[..i]) + Piece(parts[i] + parts[i + 1])
  {
    assert parts[..i + 2][..i] == parts[..i];
  }

  lemma HalfOfOdd(n: nat)
    requires n % 2 == 1
    ensures 2 * (n / 2) == n - 1
  {
  }

  /**
   * Lines 50-61: `range(0, len(parts) - 1, 2)` visits the `len(parts) / 2`
   * pairs of a split, which always has an odd number of parts.
   */
  method SplitSentences(text: string) returns (sentences: seq<string>)
    ensures sentences == Segment(text)
  {
    var parts := SplitTerminal(text);
    sentences := [];
    var pairs := |parts| / 2;
    SplitTerminalShape(text);
    HalfOfOdd(|parts|);
    for j := 0 to pairs
      invariant sentences == Pairs(parts[..2 * j])
    {
      var i := 2 * j;
      var sent := Strip(parts[i] + parts[i + 1]);
      PairsStep(parts, i);
      if sent != [] {
        sentences := sentences + [sent];
      }
    }
    assert sentences == Pairs(parts[..|parts| - 1]);
    var last := parts[|parts| - 1];
    if |parts| % 2 == 1 && Strip(last) != [] {
      sentences := sentences + [Strip(last)];
    }
    assert sentences == Pairs(parts[..|parts| - 1]) + Remainder(parts);
    if sentences == [] {
      sentences := [text];
    }
  }

  /** Every sentence a piece list holds is non-empty and stripped. */
  predicate Clean(ss: seq<string>) {
    forall k :: 0 <= k < |ss| ==> ss[k] != [] && Stripped(ss[k])
  }

  /** `ss` holds the non-whitespace characters of `src`, in order, and is no longer. */
  predicate Keeps(ss: seq<string>, src: seq<string>) {
    NonSpace(Concat(ss)) == NonSpace(Concat(src)) && |Concat(ss)| <= |Concat(src)|
  }

  lemma {:induction false} KeepsAppend(a: seq<string>, b: seq<string>, x: seq<string>, y: seq<string>)
    requires Keeps(a, x) && Keeps(b, y)
    ensures Keeps(a + b, x + y)
  {
    ConcatAppend(a, b);
    ConcatAppend(x, y);
    NonSpaceAppend(Concat(a), Concat(b));
    NonSpaceAppend(Concat(x), Concat(y));
  }

  lemma CleanAppend(a: seq<string>, b: seq<string>)
    requires Clean(a) && Clean(b)
    ensures Clean(a + b)
  {
    forall k | 0 <= k < |a + b| ensures (a + b)[k] != [] && Stripped((a + b)[k]) {
      if k >= |a| {
        assert (a + b)[k] == b[k - |a|];
      }
    }
  }

  /** Keeping a stripped piece, or dropping a blank one, loses no non-whitespace character and adds none. */
  lemma {:induction false} PieceFacts(a: string)
    ensures Keeps(Piece(a), [a])
    ensures Clean(Piece(a))
  {
    var t := Strip(a);
    NonSpaceStrip(a);
    ConcatSingle(a);
    if t != [] {
      ConcatSingle(t);
    } else {
      assert NonSpace(t) == [];
    }
  }

  lemma {:induction false} ConcatPair(a: string, b: string)
    ensures Concat([a, b]) == a + b
  {
    ConcatSingle(b);
    assert [a, b][1..] == [b];
  }

  lemma {:induction false} PairsFacts(ps: seq<string>, j: nat)
    requires |ps| == 2 * j
    ensures Keeps(Pairs(ps), ps)
    ensures Clean(Pairs(ps))
  {
    if j > 0 {
      var n := |ps|;
      var done := ps[..n - 2];
      var ab := ps[n - 2] + ps[n - 1];
      PairsFacts(done, j - 1);
      PieceFacts(ab);
      ConcatPair(ps[n - 2], ps[n - 1]);
      ConcatSingle(ab);
      assert Keeps(Piece(ab), [ps[n - 2], ps[n - 1]]);
      KeepsAppend(Pairs(done), Piece(ab), done, [ps[n - 2], ps[n - 1]]);
      assert ps == done + [ps[n - 2], ps[n - 1]];
      CleanAppend(Pairs(done), Piece(ab));
    }
  }

  /** The sentences an odd-length split yields, with what they keep of the parts. */
  lemma {:induction false} OddPartsFacts(parts: seq<string>, k: nat)
    requires |parts| == 2 * k + 1
    ensures Keeps(Pairs(parts[..2 * k]) + Piece(parts[2 * k]), parts)
    ensures Clean(Pairs(parts[..2 * k]) + Piece(parts[2 * k]))
  {
    var n := 2 * k;
    var last := parts[n];
    PairsFacts(parts[..n], k);
    PieceFacts(last);
    KeepsAppend(Pairs(parts[..n]), Piece(last), parts[..n], [last]);
    assert parts == parts[..n] + [last];
    CleanAppend(Pairs(parts[..n]), Piece(last));
  }

  /** The sentences before the fallback, with what they keep of `text`. */
  lemma {:induction false} SentencesFacts(text: string)
    ensures var parts := SplitTerminal(text);
            var ss := Pairs(parts[..|parts| - 1]) + Remainder(parts);
            NonSpace(Concat(ss)) == NonSpace(text) && |Concat(ss)| <= |text| && Clean(ss)
  {
    var parts := SplitTerminal(text);
    SplitTerminalShape(text);
    HalfOfOdd(|parts|);
    OddPartsFacts(parts, |parts| / 2);
  }

  /** `t`, once its leading whitespace is skipped, begins with `w`. */
  predicate Opens(t: string, w: string) {
    var i := LeadingSpace(t);
    i + |w| <= |t| && t[i..i + |w|] == w
  }

  /** What follows the `w` that `t` opens with. */
  function After(t: string, w: string): (r: string)
    requires Opens(t, w)
    ensures |r| == |t| - LeadingSpace(t) - |w|
  {
    t[LeadingSpace(t) + |w|..]
  }

  /**
   * `t` is the sentences `ss` laid end to end in order, each a contiguous
   * piece of `t` that starts where a run of whitespace ends, with nothing but
   * whitespace before, between and after them.
   */
  predicate Spaced(ss: seq<string>, t: string)
    decreases |ss|
  {
    if ss == [] then AllSpace(t)
    else Opens(t, ss[0]) && Spaced(ss[1..], After(t, ss[0]))
  }

  /** Whitespace in front does not change what a text opens with, nor what follows it. */
  lemma OpensShift(g: string, t: string, w: string)
    requires AllSpace(g) && Opens(t, w)
    ensures Opens(g + t, w) && After(g + t, w) == After(t, w)
  {
    LeadingSpacePrefix(g, t);
    SliceAfter(g, t, LeadingSpace(t), |w|);
  }

  /** A word a text opens with is still where the text opens once more is appended. */
  lemma OpensAppend(x: string, y: string, w: string)
    requires Opens(x, w) && w != [] && !IsSpace(w[0])
    ensures Opens(x + y, w) && After(x + y, w) == After(x, w) + y
  {
    var i := LeadingSpace(x);
    assert x[i] == w[0];
    SliceAppend(x, y, 0, i);
    LeadingSpaceAt(x + y, i);
    SliceAppend(x, y, i, i + |w|);
  }

  /** Whitespace put in front of a spaced text keeps it spaced. */
  lemma SpacedSpace(g: string, ss: seq<string>, t: string)
    requires AllSpace(g) && Spaced(ss, t)
    ensures Spaced(ss, g + t)
  {
    if ss == [] {
      AllSpaceAppend(g, t);
    } else {
      OpensShift(g, t, ss[0]);
    }
  }

  lemma TailAppend(a: seq<string>, b: seq<string>)
    requires a != []
    ensures (a + b)[0] == a[0] && (a + b)[1..] == a[1..] + b
  {
  }

  /** Two spaced texts joined are spaced by the two sentence lists joined. */
  lemma {:induction false} SpacedAppend(a: seq<string>, x: string, b: seq<string>, y: string)
    requires Spaced(a, x) && Spaced(b, y) && Clean(a)
    ensures Spaced(a + b, x + y)
    decreases |a|
  {
    if a == [] {
      assert a + b == b;
      SpacedSpace(x, b, y);
    } else {
      var w := a[0];
      assert w != [] && Stripped(w);
      OpensAppend(x, y, w);
      assert Clean(a[1..]);
      SpacedAppend(a[1..], After(x, w), b, y);
      TailAppend(a, b);
    }
  }

  /** A piece is spaced in the text it was stripped from. */
  lemma PieceSpaced(s: string)
    ensures Spaced(Piece(s), s)
  {
    var t := Strip(s);
    StripInfix(s);
    if t != [] {
      assert Opens(s, t);
      assert [t][0] == t && [t][1..] == [];
      assert Spaced([], After(s, t));
    }
  }

  /** A piece appended to clean spaced sentences, with its source appended to the text. */
  lemma PieceAfter(ss: seq<string>, x: string, s: string)
    requires Spaced(ss, x) && Clean(ss)
    ensures Spaced(ss + Piece(s), x + s)
  {
    PieceSpaced(s);
    SpacedAppend(ss, x, Piece(s), s);
  }

  /** The parts joined, with the last pair taken off. */
  lemma ConcatLast(ps: seq<string>)
    requires |ps| >= 2
    ensures Concat(ps) == Concat(ps[..|ps| - 2]) + (ps[|ps| - 2] + ps[|ps| - 1])
  {
    var n := |ps|;
    assert ps[..n - 2] + ps[n - 2..] == ps;
    ConcatAppend(ps[..n - 2], ps[n - 2..]);
    ConcatTwo(ps[n - 2..]);
  }

  /** The parts joined, with the last one taken off. */
  lemma ConcatInit(ps: seq<string>)
    requires ps != []
    ensures Concat(ps) == Concat(ps[..|ps| - 1]) + ps[|ps| - 1]
  {
    var n := |ps|;
    assert ps[..n - 1] + ps[n - 1..] == ps;
    ConcatAppend(ps[..n - 1], ps[n - 1..]);
    ConcatOne(ps[n - 1..]);
  }

  lemma ConcatOne(u: seq<string>)
    requires |u| == 1
    ensures Concat(u) == u[0]
  {
    assert |u[1..]| == 0;
    assert u[0] + [] == u[0];
  }

  lemma ConcatTwo(u: seq<string>)
    requires |u| == 2
    ensures Concat(u) == u[0] + u[1]
  {
    var v := u[1..];
    assert |v[1..]| == 0;
    assert Concat(v) == v[0] + Concat(v[1..]);
    assert v[0] + [] == v[0];
  }

  lemma {:induction false} PairsSpaced(ps: seq<string>, j: nat)
    requires |ps| == 2 * j
    ensures Spaced(Pairs(ps), Concat(ps))
  {
    if j > 0 {
      var done := ps[..|ps| - 2];
      ConcatLast(ps);
      PairsSpaced(done, j - 1);
      PairsFacts(done, j - 1);
      PieceAfter(Pairs(done), Concat(done), ps[|ps| - 2] + ps[|ps| - 1]);
    }
  }

  /** The sentences of an odd-length split, spaced in the parts joined. */
  lemma {:induction false} OddPartsSpaced(parts: seq<string>, k: nat)
    requires |parts| == 2 * k + 1
    ensures Spaced(Pairs(parts[..2 * k]) + Piece(parts[2 * k]), Concat(parts))
  {
    var n := 2 * k;
    PairsSpaced(parts[..n], k);
    PairsFacts(parts[..n], k);
    PieceAfter(Pairs(parts[..n]), Concat(parts[..n]), parts[n]);
    ConcatInit(parts);
  }

  /**
   * The sentences are pieces of `text` itself: contiguous, in order, and
   * apart from one another only by whitespace, which is all that stripping
   * and dropping blank sentences removes.
   */
  lemma {:induction false} SegmentSpaced(text: string)
    requires !AllSpace(text)
    ensures Spaced(Segment(text), text)
  {
    var parts := SplitTerminal(text);
    SplitTerminalShape(text);
    HalfOfOdd(|parts|);
    var k := |parts| / 2;
    OddPartsSpaced(parts, k);
    assert parts[..|parts| - 1] == parts[..2 * k];
    assert Remainder(parts) == Piece(parts[2 * k]);
  }

  /** Once a terminal appears in `s`, every character after it is a terminal too. */
  predicate TerminalsLast(s: string) {
    forall i :: 0 <= i < |s| - 1 && IsTerminal(s[i]) ==> IsTerminal(s[i + 1])
  }

  predicate EndsInTerminal(s: string) {
    s != [] && IsTerminal(s[|s| - 1])
  }

  /** Every sentence of `ss` keeps its terminals at its end, and every one but the last ends in one. */
  predicate Bounded(ss: seq<string>) {
    && (forall k :: 0 <= k < |ss| ==> TerminalsLast(ss[k]))
    && (forall k :: 0 <= k < |ss| - 1 ==> EndsInTerminal(ss[k]))
  }

  /** Every sentence of `ss` ends in a terminal, which is all its terminals' final run. */
  predicate Closed(ss: seq<string>) {
    forall k :: 0 <= k < |ss| ==> TerminalsLast(ss[k]) && EndsInTerminal(ss[k])
  }

  lemma TerminalNotSpace(c: char)
    requires IsTerminal(c)
    ensures !IsSpace(c)
  {
  }

  lemma TerminalsLastJoin(x: string, r: string)
    requires NoTerminal(x) && AllTerminal(r)
    ensures TerminalsLast(x + r)
  {
    var s := x + r;
    forall i | 0 <= i < |s| - 1 && IsTerminal(s[i]) ensures IsTerminal(s[i + 1]) {
      JoinAt(x, r, i);
      JoinAt(x, r, i + 1);
    }
  }

  lemma JoinAt(x: string, r: string, i: nat)
    requires i < |x + r|
    ensures i < |x| ==> (x + r)[i] == x[i]
    ensures i >= |x| ==> (x + r)[i] == r[i - |x|]
  {
  }

  lemma TerminalsLastSuffix(s: string, i: nat)
    requires i <= |s| && TerminalsLast(s)
    ensures TerminalsLast(s[i..])
  {
    var t := s[i..];
    forall j | 0 <= j < |t| - 1 && IsTerminal(t[j]) ensures IsTerminal(t[j + 1]) {
      assert t[j] == s[i + j] && t[j + 1] == s[i + j + 1];
    }
  }

  /** The whitespace after a stripped infix is empty when `s` ends in a non-space. */
  lemma InfixAtEnd(s: string, i: nat, t: string)
    requires InfixAt(s, i, t) && s != [] && !IsSpace(s[|s| - 1])
    ensures t == s[i..]
  {
  }

  /** A text part joined with the run after it yields exactly one sentence, closed by that run. */
  lemma PairClosed(x: string, r: string)
    requires NoTerminal(x) && r != [] && AllTerminal(r)
    ensures Closed(Piece(x + r)) && |Piece(x + r)| == 1
  {
    var s := x + r;
    var i := LeadingSpace(s);
    var t := Strip(s);
    assert s[|s| - 1] == r[|r| - 1];
    TerminalNotSpace(s[|s| - 1]);
    StripInfix(s);
    InfixAtEnd(s, i, t);
    TerminalsLastJoin(x, r);
    TerminalsLastSuffix(s, i);
    assert t[|t| - 1] == s[|s| - 1];
  }

  /** The trailing text part yields at most one sentence, which holds no terminal. */
  lemma RemainderBounded(x: string)
    requires NoTerminal(x)
    ensures |Piece(x)| <= 1 && forall k :: 0 <= k < |Piece(x)| ==> NoTerminal(Piece(x)[k])
  {
    var t := Strip(x);
    var i := LeadingSpace(x);
    StripInfix(x);
    forall j | 0 <= j < |t| ensures !IsTerminal(t[j]) {
      assert t[j] == x[i + j];
    }
  }

  lemma ClosedAppend(a: seq<string>, b: seq<string>)
    requires Closed(a) && Closed(b)
    ensures Closed(a + b)
  {
    forall k | 0 <= k < |a + b| ensures TerminalsLast((a + b)[k]) && EndsInTerminal((a + b)[k]) {
      if k >= |a| {
        assert (a + b)[k] == b[k - |a|];
      }
    }
  }

  /** Taken two at a time from the front, the parts are a text without terminals and a non-empty run of terminals. */
  predicate Alternating(ps: seq<string>)
    decreases |ps|
  {
    |ps| < 2 ||
      (&& Alternating(ps[..|ps| - 2])
       && NoTerminal(ps[|ps| - 2]) && ps[|ps| - 1] != [] && AllTerminal(ps[|ps| - 1]))
  }

  /** Every pair of an alternating list yields one sentence, closed by the pair's run. */
  lemma {:induction false} PairsClosed(ps: seq<string>, j: nat)
    requires |ps| == 2 * j && Alternating(ps)
    ensures Closed(Pairs(ps)) && |Pairs(ps)| == j
  {
    if j > 0 {
      var n := |ps|;
      var done := ps[..n - 2];
      PairsClosed(done, j - 1);
      PairsClosedStep(ps, Pairs(done));
    }
  }

  lemma PairsClosedStep(ps: seq<string>, done: seq<string>)
    requires |ps| >= 2 && done == Pairs(ps[..|ps| - 2]) && Closed(done)
    requires NoTerminal(ps[|ps| - 2]) && ps[|ps| - 1] != [] && AllTerminal(ps[|ps| - 1])
    ensures Closed(Pairs(ps)) && |Pairs(ps)| == |done| + 1
  {
    var n := |ps|;
    PairClosed(ps[n - 2], ps[n - 1]);
    ClosedAppend(done, Piece(ps[n - 2] + ps[n - 1]));
  }

  lemma BoundedOf(a: seq<string>, b: seq<string>)
    requires Closed(a) && |b| <= 1 && forall k :: 0 <= k < |b| ==> NoTerminal(b[k])
    ensures Bounded(a + b)
  {
    var ss := a + b;
    forall k | 0 <= k < |ss| ensures TerminalsLast(ss[k]) {
      if k >= |a| {
        assert ss[k] == b[k - |a|];
      }
    }
  }

  /** The first `2 * j` parts of a split alternate. */
  lemma {:induction false} AlternatingOfSplit(parts: seq<string>, j: nat)
    requires WellSplit(parts) && 2 * j <= |parts|
    ensures Alternating(parts[..2 * j])
  {
    if j > 0 {
      AlternatingOfSplit(parts, j - 1);
      var q := parts[..2 * j];
      assert q[..2 * j - 2] == parts[..2 * j - 2];
      assert q[2 * j - 2] == parts[2 * j - 2] && q[2 * j - 1] == parts[2 * j - 1];
      assert (2 * j - 2) % 2 == 0 && (2 * j - 1) % 2 == 1;
    }
  }

  /** The last part of a split is text. */
  lemma WellSplitLast(parts: seq<string>)
    requires WellSplit(parts)
    ensures NoTerminal(parts[|parts| - 1])
  {
    assert (|parts| - 1) % 2 == 0;
  }

  /** The sentences before the fallback keep their terminals at their ends, and all but the last end in one. */
  lemma {:induction false} SentencesBounded(text: string)
    ensures var parts := SplitTerminal(text);
            Bounded(Pairs(parts[..|parts| - 1]) + Remainder(parts))
  {
    var parts := SplitTerminal(text);
    SplitTerminalShape(text);
    HalfOfOdd(|parts|);
    var k := |parts| / 2;
    var ps := parts[..2 * k];
    assert parts[..|parts| - 1] == ps;
    AlternatingOfSplit(parts, k);
    PairsClosed(ps, k);
    WellSplitLast(parts);
    RemainderBounded(parts[2 * k]);
    assert Remainder(parts) == Piece(parts[2 * k]);
    BoundedOf(Pairs(ps), Remainder(parts));
  }

  /** When no sentence survives, `text` is blank and so holds no terminal. */
  lemma {:induction false} FallbackBounded(text: string)
    requires var parts := SplitTerminal(text);
             Pairs(parts[..|parts| - 1]) + Remainder(parts) == []
    ensures Bounded([text])
  {
    SentencesFacts(text);
    NonSpaceEmptyIffAllSpace(text);
    forall i | 0 <= i < |text| ensures !IsTerminal(text[i]) {
      assert IsSpace(text[i]);
    }
  }

  /**
   * Where sentences break: in every sentence the terminal punctuation forms
   * only its final run, and every sentence but the last ends in terminal
   * punctuation. So the text of one sentence never runs on past a run of
   * terminals; a new sentence starts there.
   */
  lemma {:induction false} SegmentBoundaries(text: string)
    ensures Bounded(Segment(text))
  {
    var parts := SplitTerminal(text);
    var ss := Pairs(parts[..|parts| - 1]) + Remainder(parts);
    if ss != [] {
      SentencesBounded(text);
    } else {
      FallbackBounded(text);
    }
  }

  lemma {:induction false} NonSpaceEmptyIffAllSpace(s: string)
    ensures NonSpace(s) == [] <==> AllSpace(s)
  {
    if s != [] {
      NonSpaceEmptyIffAllSpace(s[1..]);
    }
  }

  /** A non-empty list of clean sentences holds some non-whitespace character. */
  lemma {:induction false} CleanHasNonSpace(ss: seq<string>)
    requires ss != [] && Clean(ss)
    ensures NonSpace(Concat(ss)) != []
  {
    NonSpaceAppend(ss[0], Concat(ss[1..]));
    assert !IsSpace(ss[0][0]);
  }

  /**
   * No non-whitespace character of `text` is lost, added or reordered: the
   * sentences, joined, hold exactly the non-whitespace characters of `text`.
   */
  lemma {:induction false} SegmentCoverage(text: string)
    ensures NonSpace(Concat(Segment(text))) == NonSpace(text)
  {
    SentencesFacts(text);
    ConcatSingle(text);
  }

  /**
   * Never an empty list. A blank `text` (empty or all whitespace) comes back
   * whole as the only sentence; otherwise every sentence is non-empty and has
   * no leading or trailing whitespace.
   */
  lemma {:induction false} SegmentShape(text: string)
    ensures |Segment(text)| >= 1
    ensures AllSpace(text) ==> Segment(text) == [text]
    ensures !AllSpace(text) ==> Clean(Segment(text))
  {
    SentencesFacts(text);
    NonSpaceEmptyIffAllSpace(text);
    var parts := SplitTerminal(text);
    var ss := Pairs(parts[..|parts| - 1]) + Remainder(parts);
    if ss != [] {
      CleanHasNonSpace(ss);
    }
  }

  /** The sentences together are never longer than `text`: their cursor never passes its end. */
  lemma {:induction false} SegmentTotalLength(text: string)
    ensures |Concat(Segment(text))| <= |text|
  {
    SentencesFacts(text);
    ConcatSingle(text);
  }

  /** A text without terminals is glued onto the front of the first part. */
  lemma {:induction false} TextSplit(w: string, rest: string)
    requires NoTerminal(w)
    ensures var parts := SplitTerminal(rest);
            SplitTerminal(w + rest) == [w + parts[0]] + parts[1..]
    decreases |w|
  {
    var parts := SplitTerminal(rest);
    if w != [] {
      TextSplit(w[1..], rest);
      TextSplitStep(w[0], w[1..] + rest, w[1..] + parts[0], parts[1..]);
      ConsAppend(w, rest);
      ConsAppend(w, parts[0]);
    } else {
      assert w + rest == rest && w + parts[0] == parts[0];
      assert [parts[0]] + parts[1..] == parts;
    }
  }

  /** One text character more in front joins the first part. */
  lemma TextSplitStep(c: char, u: string, head: string, tail: seq<string>)
    requires !IsTerminal(c) && SplitTerminal(u) == [head] + tail
    ensures SplitTerminal([c] + u) == [[c] + head] + tail
  {
    SplitTerminalCons(c, u);
    var q := SplitTerminal(u);
    assert q[0] == head && q[1..] == tail;
  }

  lemma ConsAppend(w: string, a: string)
    requires w != []
    ensures w + a == [w[0]] + (w[1..] + a)
  {
    ConsSplit(w);
  }

  /** A maximal run of terminals at the front becomes one part, after an empty text part. */
  lemma {:induction false} RunSplit(t: string, rest: string)
    requires t != [] && AllTerminal(t)
    requires rest == [] || !IsTerminal(rest[0])
    ensures SplitTerminal(t + rest) == [[], t] + SplitTerminal(rest)
    decreases |t|
  {
    assert t + rest == [t[0]] + (t[1..] + rest);
    SplitTerminalCons(t[0], t[1..] + rest);
    var parts := SplitTerminal(rest);
    if |t| == 1 {
      assert t[1..] + rest == rest && [t[0]] == t;
      if rest != [] {
        assert rest == [rest[0]] + rest[1..];
        SplitTerminalCons(rest[0], rest[1..]);
        assert parts[0] != [];
      } else {
        assert |parts| == 1;
      }
    } else {
      RunSplit(t[1..], rest);
      assert [t[0]] + t[1..] == t;
    }
  }

  /** A text whose ends are not whitespace is its own strip. */
  lemma StripUnchanged(s: string)
    requires s != [] && !IsSpace(s[0]) && !IsSpace(s[|s| - 1])
    ensures Strip(s) == s
  {
  }

  /** Text without terminals, then a maximal run of terminals, become two parts in front of the rest's. */
  lemma {:induction false} SentenceSplit(w: string, m: string, rest: string)
    requires NoTerminal(w) && m != [] && AllTerminal(m)
    requires rest == [] || !IsTerminal(rest[0])
    ensures SplitTerminal(w + (m + rest)) == [w, m] + SplitTerminal(rest)
  {
    RunSplit(m, rest);
    TextSplit(w, m + rest);
    EmptyHead(w, m, SplitTerminal(rest));
  }

  lemma EmptyHead(w: string, m: string, tail: seq<string>)
    ensures [w + []] + ([[], m] + tail)[1..] == [w, m] + tail
  {
    assert w + [] == w;
    assert ([[], m] + tail)[1..] == [m] + tail;
  }

  lemma TwoMarked(w1: string, w2: string)
    ensures w1 + "。" + w2 + "！" == w1 + ("。" + (w2 + ("！" + "")))
  {
  }

  /** The split of two sentences ending in `。` and `！`. */
  lemma {:induction false} SplitTwo(w1: string, w2: string)
    requires w1 != [] && NoTerminal(w1)
    requires w2 != [] && NoTerminal(w2)
    ensures var parts := SplitTerminal(w1 + "。" + w2 + "！");
            && |parts| == 5 && parts[0] == w1 && parts[1] == "。"
            && parts[2] == w2 && parts[3] == "！" && parts[4] == ""
  {
    SentenceSplit(w2, "！", "");
    assert (w2 + ("！" + ""))[0] == w2[0];
    SentenceSplit(w1, "。", w2 + ("！" + ""));
    TwoMarked(w1, w2);
  }

  /** Slicing a list with a pair put in front. */
  lemma ConsPrefix(a: string, b: string, ps: seq<string>)
    requires |ps| >= 2
    ensures var xs := [a, b] + ps;
            && xs[..|xs| - 2] == [a, b] + ps[..|ps| - 2]
            && xs[|xs| - 2] == ps[|ps| - 2] && xs[|xs| - 1] == ps[|ps| - 1]
  {
  }

  /** A pair in front contributes its sentence in front of the others. */
  lemma {:induction false} PairsCons(a: string, b: string, ps: seq<string>, j: nat)
    requires |ps| == 2 * j
    ensures Pairs([a, b] + ps) == Piece(a + b) + Pairs(ps)
  {
    if j == 0 {
      assert [a, b] + ps == [a, b];
      assert [a, b][..0] == [];
    } else {
      var n := |ps|;
      var done := ps[..n - 2];
      ConsPrefix(a, b, ps);
      PairsCons(a, b, done, j - 1);
      PairsConsStep(Piece(a + b), Pairs(done), Piece(ps[n - 2] + ps[n - 1]));
    }
  }

  lemma PairsConsStep<T>(x: seq<T>, y: seq<T>, z: seq<T>)
    ensures (x + y) + z == x + (y + z)
  {
  }

  /** The parts before the last, and the remainder, of a split with a pair put in front. */
  lemma SplitCons(a: string, b: string, ps: seq<string>)
    requires |ps| % 2 == 1
    ensures var xs := [a, b] + ps;
            && xs[..|xs| - 1] == [a, b] + ps[..|ps| - 1]
            && Remainder(xs) == Remainder(ps)
  {
    var xs := [a, b] + ps;
    assert xs[|xs| - 1] == ps[|ps| - 1];
    assert |xs| % 2 == 1;
  }

  /**
   * A maximal run of terminals stays whole: text without terminals, then
   * such a run, form the first sentence, and the sentences of what follows
   * come after it. With `SentencesNoTerminal` this determines the sentences
   * of every text.
   */
  lemma {:induction false} SentencesFirst(w: string, m: string, rest: string)
    requires NoTerminal(w) && m != [] && AllTerminal(m)
    requires rest == [] || !IsTerminal(rest[0])
    ensures Sentences(w + (m + rest)) == Piece(w + m) + Sentences(rest)
  {
    SentenceSplit(w, m, rest);
    SplitTerminalShape(rest);
    SentencesCons(SplitTerminal(w + (m + rest)), w, m, SplitTerminal(rest));
  }

  /** The sentences of an odd-length list of parts with a pair put in front. */
  lemma SentencesCons(xs: seq<string>, a: string, b: string, p: seq<string>)
    requires xs == [a, b] + p && |p| % 2 == 1
    ensures Pairs(xs[..|xs| - 1]) + Remainder(xs) == Piece(a + b) + (Pairs(p[..|p| - 1]) + Remainder(p))
  {
    SplitCons(a, b, p);
    HalfOfOdd(|p|);
    assert |p[..|p| - 1]| == 2 * (|p| / 2);
    PairsCons(a, b, p[..|p| - 1], |p| / 2);
    PairsConsStep(Piece(a + b), Pairs(p[..|p| - 1]), Remainder(p));
  }

  /** Text without terminals is one sentence once stripped, or none when blank. */
  lemma {:induction false} SentencesNoTerminal(w: string)
    requires NoTerminal(w)
    ensures Sentences(w) == Piece(w)
  {
    TextSplit(w, []);
    assert w + [] == w;
    assert SplitTerminal(w) == [w];
  }

  /**
   * A run of several terminals between two words is not broken up: the
   * text is two sentences, the first keeping the whole run.
   */
  lemma {:induction false} RunStaysWhole(w1: string, m: string, w2: string)
    requires w1 != [] && NoTerminal(w1) && !IsSpace(w1[0])
    requires m != [] && AllTerminal(m)
    requires w2 != [] && NoTerminal(w2) && !IsSpace(w2[0]) && !IsSpace(w2[|w2| - 1])
    ensures Segment(w1 + (m + w2)) == [w1 + m, w2]
  {
    SentencesFirst(w1, m, w2);
    SentencesNoTerminal(w2);
    StripUnchanged(w2);
    var s := w1 + m;
    assert s[0] == w1[0] && s[|s| - 1] == m[|m| - 1];
    TerminalNotSpace(m[|m| - 1]);
    StripUnchanged(s);
  }

  /** `"a。！b"` gives `["a。！", "b"]`. */
  lemma RunStaysWholeExample()
    ensures Segment("a" + ("。！" + "b")) == ["a" + "。！", "b"]
  {
    RunStaysWhole("a", "。！", "b");
  }

  /** The sentences of the first two pairs of five parts. */
  lemma PairsOfFive(p: seq<string>)
    requires |p| == 5
    ensures Pairs(p[..4]) == Piece(p[0] + p[1]) + Piece(p[2] + p[3])
  {
    var q := p[..4];
    assert q[..2] == p[..2] && q[2] == p[2] && q[3] == p[3];
    assert Pairs(q) == Pairs(p[..2]) + Piece(p[2] + p[3]);
    var r := p[..2];
    assert r[..0] == [] && r[0] == p[0] && r[1] == p[1];
    assert Pairs(r) == Pairs([]) + Piece(p[0] + p[1]);
  }

  /** The sentences of five parts shaped like those of two marked sentences. */
  lemma TwoSentencesOfParts(w1: string, w2: string, parts: seq<string>)
    requires w1 != [] && !IsSpace(w1[0]) && w2 != [] && !IsSpace(w2[0])
    requires && |parts| == 5 && parts[0] == w1 && parts[1] == "。"
             && parts[2] == w2 && parts[3] == "！" && parts[4] == ""
    ensures Pairs(parts[..4]) + Remainder(parts) == [w1 + "。", w2 + "！"]
  {
    PairsOfFive(parts);
    StripUnchanged(w1 + "。");
    StripUnchanged(w2 + "！");
    assert AllSpace(parts[4]);
  }

  /**
   * Two sentences ending in `。` and `！` (the shape of "你好。世界！") come
   * back as two sentences, each keeping its mark.
   */
  lemma {:induction false} TwoSentences(w1: string, w2: string)
    requires w1 != [] && NoTerminal(w1) && !IsSpace(w1[0])
    requires w2 != [] && NoTerminal(w2) && !IsSpace(w2[0])
    ensures Segment(w1 + "。" + w2 + "！") == [w1 + "。", w2 + "！"]
  {
    SplitTwo(w1, w2);
    TwoSentencesOfParts(w1, w2, SplitTerminal(w1 + "。" + w2 + "！"));
  }

  /** The empty text is one empty sentence. */
  lemma SegmentEmpty()
    ensures Segment("") == [""]
  {
    assert Strip("") == "";
  }

  /** A text without terminal punctuation and with no whitespace at its ends is one sentence. */
  lemma SegmentSingle(w: string)
    requires w != [] && NoTerminal(w) && !IsSpace(w[0]) && !IsSpace(w[|w| - 1])
    ensures Segment(w) == [w]
  {
    TextSplit(w, "");
    assert w + "" == w;
    var parts := SplitTerminal(w);
    assert parts == [w];
    StripUnchanged(w);
    assert parts[..0] == [];
  }
}
