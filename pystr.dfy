/**
 * The Python string builtins the service relies on: `str.isspace`, and
 * `str.strip()` and `str.split()` without arguments. `Concat` is `"".join`,
 * which the service never calls: it is here to state what the sentences and
 * words keep of a text.
 * Whitespace is the fixed set of code points for which Python's
 * `str.isspace()` holds.
 */
module PyStr {

  /** Python's `str.isspace()` for a single code point. */
  predicate IsSpace(c: char) {
    || c == ' ' || c == '\t' || c == '\n' || c == '\r'
    || c == '\U{000B}' || c == '\U{000C}'
    || ('\U{001C}' <= c <= '\U{001F}')
    || c == '\U{0085}' || c == '\U{00A0}' || c == '\U{1680}'
    || ('\U{2000}' <= c <= '\U{200A}')
    || c == '\U{2028}' || c == '\U{2029}' || c == '\U{202F}' || c == '\U{205F}'
    || c == '\U{3000}'
  }

  predicate AllSpace(s: string) {
    forall i :: 0 <= i < |s| ==> IsSpace(s[i])
  }

  /** Neither end of `s` is whitespace. */
  predicate Stripped(s: string) {
    s == [] || (!IsSpace(s[0]) && !IsSpace(s[|s| - 1]))
  }

  /** The characters of `s` that are not whitespace, in order. */
  function NonSpace(s: string): (r: string)
    ensures |r| <= |s|
    ensures forall i :: 0 <= i < |r| ==> !IsSpace(r[i])
  {
    if s == [] then []
    else if IsSpace(s[0]) then NonSpace(s[1..])
    else [s[0]] + NonSpace(s[1..])
  }

  /** `"".join(ss)` */
  function Concat(ss: seq<string>): string {
    if ss == [] then [] else ss[0] + Concat(ss[1..])
  }

  /** `s.strip()`: leading and trailing whitespace dropped. */
  function Strip(s: string): (r: string)
    ensures |r| <= |s|
    ensures Stripped(r)
    ensures r == [] <==> AllSpace(s)
    decreases |s|
  {
    if s == [] then []
    else if IsSpace(s[0]) then
      assert AllSpace(s) <==> AllSpace(s[1..]) by {
        assert forall i :: 0 < i < |s| ==> s[i] == s[1..][i - 1];
      }
      Strip(s[1..])
    else if IsSpace(s[|s| - 1]) then
      assert !AllSpace(s[..|s| - 1]) && !AllSpace(s);
      Strip(s[..|s| - 1])
    else
      assert !AllSpace(s);
      s
  }

  /** Length of the leading run of whitespace of `s`. */
  function LeadingSpace(s: string): (n: nat)
    ensures n <= |s|
    ensures AllSpace(s[..n])
    ensures n == |s| || !IsSpace(s[n])
  {
    if s == [] || !IsSpace(s[0]) then 0
    else
      var n := 1 + LeadingSpace(s[1..]);
      assert s[..n] == [s[0]] + s[1..][..n - 1];
      n
  }

  /** `r` is the piece of `s` that starts at `i`, and only whitespace follows it. */
  predicate InfixAt(s: string, i: nat, r: string) {
    i + |r| <= |s| && r == s[i..i + |r|] && AllSpace(s[i + |r|..])
  }

  /**
   * `strip()` removes only the two ends: its result is the piece of `s`
   * that starts after the leading whitespace, and only whitespace follows it.
   */
  lemma {:induction false} StripInfix(s: string)
    ensures InfixAt(s, LeadingSpace(s), Strip(s))
    decreases |s|
  {
    if s == [] || (!IsSpace(s[0]) && !IsSpace(s[|s| - 1])) {
      StripKept(s);
    } else if IsSpace(s[0]) {
      StripInfix(s[1..]);
      StripFront(s);
    } else {
      StripInfix(s[..|s| - 1]);
      StripBack(s);
    }
  }

  /** A text with no whitespace at either end is its own `strip()`. */
  lemma StripKept(s: string)
    requires s == [] || (!IsSpace(s[0]) && !IsSpace(s[|s| - 1]))
    ensures InfixAt(s, LeadingSpace(s), Strip(s))
  {
    assert LeadingSpace(s) == 0 && Strip(s) == s;
    InfixAtWhole(s);
  }

  /** The leading-whitespace step of `StripInfix`. */
  lemma StripFront(s: string)
    requires s != [] && IsSpace(s[0])
    requires InfixAt(s[1..], LeadingSpace(s[1..]), Strip(s[1..]))
    ensures InfixAt(s, LeadingSpace(s), Strip(s))
  {
    StripDropFirst(s);
    InfixAtCons(s[0], s[1..], LeadingSpace(s[1..]), Strip(s[1..]));
  }

  /** The trailing-whitespace step of `StripInfix`. */
  lemma StripBack(s: string)
    requires s != [] && !IsSpace(s[0]) && IsSpace(s[|s| - 1])
    requires InfixAt(s[..|s| - 1], LeadingSpace(s[..|s| - 1]), Strip(s[..|s| - 1]))
    ensures InfixAt(s, LeadingSpace(s), Strip(s))
  {
    StripDropLast(s);
    InfixAtSnoc(s[..|s| - 1], s[|s| - 1], Strip(s[..|s| - 1]));
  }

  /** Leading whitespace: `strip()` drops it, and the leading run is one shorter without it. */
  lemma StripDropFirst(s: string)
    requires s != [] && IsSpace(s[0])
    ensures LeadingSpace(s) == LeadingSpace(s[1..]) + 1 && Strip(s) == Strip(s[1..])
    ensures s == [s[0]] + s[1..]
  {
    ConsSplit(s);
  }

  /** Trailing whitespace after a non-space start: `strip()` drops it, and there is no leading run. */
  lemma StripDropLast(s: string)
    requires s != [] && !IsSpace(s[0]) && IsSpace(s[|s| - 1])
    ensures LeadingSpace(s) == 0 && LeadingSpace(s[..|s| - 1]) == 0 && Strip(s) == Strip(s[..|s| - 1])
    ensures s == s[..|s| - 1] + [s[|s| - 1]]
  {
    assert s[..|s| - 1][0] == s[0];
    SnocSplit(s);
  }

  lemma ConsSplit(s: string)
    requires s != []
    ensures s == [s[0]] + s[1..]
  {
  }

  lemma SnocSplit(s: string)
    requires s != []
    ensures s == s[..|s| - 1] + [s[|s| - 1]]
  {
  }

  lemma InfixAtWhole(s: string)
    ensures InfixAt(s, 0, s)
  {
    assert s[0..|s|] == s;
  }

  /** One more character in front moves the piece one position on. */
  lemma InfixAtCons(c: char, t: string, i: nat, r: string)
    requires InfixAt(t, i, r)
    ensures InfixAt([c] + t, i + 1, r)
  {
    var s := [c] + t;
    assert s[1..] == t;
    SliceTail(s, i, |r|);
  }

  /** One more whitespace character at the end keeps only whitespace after the piece. */
  lemma InfixAtSnoc(t: string, c: char, r: string)
    requires IsSpace(c) && InfixAt(t, 0, r)
    ensures InfixAt(t + [c], 0, r)
  {
    SliceAppend(t, [c], 0, |r|);
    AllSpaceAppend(t[|r|..], [c]);
  }

  /** Slicing `s[1..]` is slicing `s` one position further on. */
  lemma SliceTail(s: string, i: nat, n: nat)
    requires i + n <= |s| - 1
    ensures s[1..][i..i + n] == s[i + 1..i + 1 + n]
    ensures s[1..][i + n..] == s[i + 1 + n..]
  {
  }

  /** Slicing `x + y` inside `x`. */
  lemma SliceAppend(x: string, y: string, i: nat, j: nat)
    requires i <= j <= |x|
    ensures (x + y)[i..j] == x[i..j]
    ensures (x + y)[i..] == x[i..] + y
  {
  }

  /** Slicing `g + t` inside `t`. */
  lemma SliceAfter(g: string, t: string, i: nat, n: nat)
    requires i + n <= |t|
    ensures (g + t)[|g| + i..|g| + i + n] == t[i..i + n]
    ensures (g + t)[|g| + i + n..] == t[i + n..]
  {
  }

  lemma AllSpaceAppend(g: string, t: string)
    requires AllSpace(g) && AllSpace(t)
    ensures AllSpace(g + t)
  {
    assert forall k :: 0 <= k < |g + t| ==> (g + t)[k] == if k < |g| then g[k] else t[k - |g|];
  }

  /** Whitespace in front only lengthens the leading run. */
  lemma {:induction false} LeadingSpacePrefix(g: string, t: string)
    requires AllSpace(g)
    ensures LeadingSpace(g + t) == |g| + LeadingSpace(t)
  {
    if g == [] {
      assert g + t == t;
    } else {
      assert (g + t)[0] == g[0] && (g + t)[1..] == g[1..] + t;
      LeadingSpacePrefix(g[1..], t);
    }
  }

  /** Whitespace up to `i` and a non-whitespace character at `i`: the leading run has length `i`. */
  lemma {:induction false} LeadingSpaceAt(s: string, i: nat)
    requires i < |s| && AllSpace(s[..i]) && !IsSpace(s[i])
    ensures LeadingSpace(s) == i
  {
    if i > 0 {
      assert s[0] == s[..i][0];
      assert s[1..][..i - 1] == s[..i][1..];
      LeadingSpaceAt(s[1..], i - 1);
    }
  }

  /** Length of the leading run of non-whitespace characters of `s`. */
  function TokenLength(s: string): (n: nat)
    ensures n <= |s|
    ensures forall i :: 0 <= i < n ==> !IsSpace(s[i])
    ensures n == |s| || IsSpace(s[n])
  {
    if s == [] || IsSpace(s[0]) then 0 else 1 + TokenLength(s[1..])
  }

  /** `s.split()`: the maximal runs of non-whitespace characters, in order. */
  function Split(s: string): (ws: seq<string>)
    ensures forall k :: 0 <= k < |ws| ==> ws[k] != [] && NonSpace(ws[k]) == ws[k]
    decreases |s|
  {
    if s == [] then []
    else if IsSpace(s[0]) then Split(s[1..])
    else
      var n := TokenLength(s);
      NonSpaceOfNoSpace(s[..n]);
      [s[..n]] + Split(s[n..])
  }

  lemma {:induction false} NonSpaceOfNoSpace(s: string)
    requires forall i :: 0 <= i < |s| ==> !IsSpace(s[i])
    ensures NonSpace(s) == s
  {
    if s != [] {
      NonSpaceOfNoSpace(s[1..]);
    }
  }

  lemma {:induction false} NonSpaceAppend(a: string, b: string)
    ensures NonSpace(a + b) == NonSpace(a) + NonSpace(b)
  {
    if a == [] {
      assert a + b == b;
    } else {
      assert (a + b)[1..] == a[1..] + b;
      NonSpaceAppend(a[1..], b);
    }
  }

  lemma {:induction false} NonSpaceAllSpace(s: string)
    requires AllSpace(s)
    ensures NonSpace(s) == []
  {
    if s != [] {
      NonSpaceAllSpace(s[1..]);
    }
  }

  /** Stripping only drops whitespace: no other character is lost. */
  lemma {:induction false} NonSpaceStrip(s: string)
    ensures NonSpace(Strip(s)) == NonSpace(s)
    decreases |s|
  {
    if s != [] {
      if IsSpace(s[0]) {
        NonSpaceStrip(s[1..]);
      } else if IsSpace(s[|s| - 1]) {
        var init := s[..|s| - 1];
        NonSpaceStrip(init);
        assert s == init + [s[|s| - 1]];
        NonSpaceAppend(init, [s[|s| - 1]]);
        assert [s[|s| - 1]][1..] == [];
      }
    }
  }

  lemma {:induction false} ConcatSingle(s: string)
    ensures Concat([s]) == s
  {
    assert [s][1..] == [];
  }

  lemma {:induction false} ConcatAppend(a: seq<string>, b: seq<string>)
    ensures Concat(a + b) == Concat(a) + Concat(b)
  {
    if a == [] {
      assert a + b == b;
    } else {
      assert (a + b)[1..] == a[1..] + b;
      ConcatAppend(a[1..], b);
    }
  }

  /** The words of `s.split()` hold exactly the non-whitespace characters of `s`, in order. */
  lemma {:induction false} SplitCoversNonSpace(s: string)
    ensures Concat(Split(s)) == NonSpace(s)
    decreases |s|
  {
    if s == [] {
    } else if IsSpace(s[0]) {
      SplitCoversNonSpace(s[1..]);
    } else {
      var n := TokenLength(s);
      assert s == s[..n] + s[n..];
      SplitCoversNonSpace(s[n..]);
      NonSpaceOfNoSpace(s[..n]);
      NonSpaceAppend(s[..n], s[n..]);
    }
  }

  /** `" ".join(s.split())` is never longer than `s`: words are separated by at least one whitespace character. */
  lemma {:induction false} SplitJoinLength(s: string)
    ensures var ws := Split(s);
            ws != [] ==> |Concat(ws)| + |ws| <= |s| + 1
    decreases |s|
  {
    if s != [] {
      if IsSpace(s[0]) {
        SplitJoinLength(s[1..]);
      } else {
        var n := TokenLength(s);
        var ws := Split(s);
        var rest := Split(s[n..]);
        assert ws == [s[..n]] + rest;
        assert ws[1..] == rest;
        if rest != [] {
          assert s[n..][1..] == s[n + 1..];
          SplitJoinLength(s[n + 1..]);
        }
      }
    }
  }

  /** A run of `n` non-whitespace characters ended by whitespace or by the end of `s` is the leading token. */
  lemma {:induction false} TokenLengthAt(s: string, n: nat)
    requires n <= |s| && (forall i :: 0 <= i < n ==> !IsSpace(s[i])) && (n == |s| || IsSpace(s[n]))
    ensures TokenLength(s) == n
  {
    if n > 0 {
      TokenLengthAt(s[1..], n - 1);
    }
  }

  /**
   * `str.split()` takes maximal runs: a word followed by whitespace, or by
   * nothing, is the first word, and the rest is split on its own.
   */
  lemma SplitWordFirst(a: string, b: string)
    requires a != [] && forall i :: 0 <= i < |a| ==> !IsSpace(a[i])
    requires b == [] || IsSpace(b[0])
    ensures Split(a + b) == [a] + Split(b)
  {
    var s := a + b;
    TokenLengthAt(s, |a|);
    assert s[..|a|] == a && s[|a|..] == b;
  }

  /** Two words with whitespace between them split into those two words, however long the gap. */
  lemma SplitTwoWords(a: string, g: string, b: string)
    requires a != [] && forall i :: 0 <= i < |a| ==> !IsSpace(a[i])
    requires b != [] && forall i :: 0 <= i < |b| ==> !IsSpace(b[i])
    requires g != [] && AllSpace(g)
    ensures Split(a + g + b) == [a, b]
  {
    assert a + g + b == a + (g + b);
    assert (g + b)[0] == g[0];
    SplitWordFirst(a, g + b);
    SplitSpaceFirst(g, b);
    SplitNoSpace(b);
  }

  /** Leading whitespace never produces a word. */
  lemma {:induction false} SplitSpaceFirst(g: string, t: string)
    requires AllSpace(g)
    ensures Split(g + t) == Split(t)
  {
    if g == [] {
      assert g + t == t;
    } else {
      assert (g + t)[0] == g[0] && (g + t)[1..] == g[1..] + t;
      SplitSpaceFirst(g[1..], t);
    }
  }

  /** A word without whitespace splits into itself alone. */
  lemma SplitNoSpace(w: string)
    requires w != [] && forall i :: 0 <= i < |w| ==> !IsSpace(w[i])
    ensures Split(w) == [w]
  {
    SplitWordFirst(w, []);
    assert w + [] == w;
  }
}
