/*
 * The three .NET string operations the word pipeline is built from:
 * removing every occurrence of one character (String.Replace with an empty
 * replacement), splitting on one separator character (String.Split(char),
 * which keeps empty tokens) and joining with a separator (string.Join).
 * Strings are sequences of characters.
 */
module Text {

  /** Number of occurrences of `c` in `s`. */
  function Count(c: char, s: string): nat
  {
    if |s| == 0 then 0
    else (if s[0] == c then 1 else 0) + Count(c, s[1..])
  }

  /** Counting is additive over concatenation. */
  lemma {:induction false} CountAppend(c: char, a: string, b: string)
    ensures Count(c, a + b) == Count(c, a) + Count(c, b)
  {
    if |a| == 0 {
      assert a + b == b;
    } else {
      assert (a + b)[1..] == a[1..] + b;
      CountAppend(c, a[1..], b);
    }
  }

  /**
   * `s` with every occurrence of `c` deleted: `s.Replace(c.ToString(), "")`.
   * Every other character is kept, as many times as it occurs in `s`.
   */
  function Remove(s: string, c: char): (r: string)
    ensures c !in r
    ensures |r| == |s| - Count(c, s)
    ensures forall d :: d != c ==> Count(d, r) == Count(d, s)
  {
    if |s| == 0 then ""
    else if s[0] == c then Remove(s[1..], c)
    else [s[0]] + Remove(s[1..], c)
  }

  /** Removal works piece by piece: it distributes over concatenation. */
  lemma {:induction false} RemoveAppend(a: string, b: string, c: char)
    ensures Remove(a + b, c) == Remove(a, c) + Remove(b, c)
  {
    if |a| == 0 {
      assert a + b == b;
    } else {
      assert (a + b)[1..] == a[1..] + b;
      RemoveAppend(a[1..], b, c);
    }
  }

  /** A text without `c` is left exactly as it is. */
  lemma {:induction false} RemoveAbsent(s: string, c: char)
    requires c !in s
    ensures Remove(s, c) == s
  {
    if |s| > 0 {
      RemoveAbsent(s[1..], c);
      assert s == [s[0]] + s[1..];
    }
  }

  /** Removing a character twice is the same as removing it once. */
  lemma RemoveIdempotent(s: string, c: char)
    ensures Remove(Remove(s, c), c) == Remove(s, c)
  {
    RemoveAbsent(Remove(s, c), c);
  }

  /**
   * `s.Split(sep)`: the maximal runs of non-separator characters, in order.
   * Consecutive, leading and trailing separators give empty tokens, which
   * are kept, so there is always one token more than there are separators
   * and the empty text gives the single empty token.
   */
  function Split(s: string, sep: char): (r: seq<string>)
    ensures |r| == Count(sep, s) + 1
    ensures forall i :: 0 <= i < |r| ==> sep !in r[i]
    ensures forall i, d :: 0 <= i < |r| && d in r[i] ==> d in s
  {
    if |s| == 0 then [""]
    else
      var rest := Split(s[1..], sep);
      assert forall d :: d in s[1..] ==> d in s;
      if s[0] == sep then [""] + rest
      else [[s[0]] + rest[0]] + rest[1..]
  }

  /** Total number of characters in the tokens of `ts`. */
  function TotalLength(ts: seq<string>): nat
  {
    if |ts| == 0 then 0 else |ts[0]| + TotalLength(ts[1..])
  }

  /** Total number of occurrences of `c` in the tokens of `ts`. */
  function TotalCount(c: char, ts: seq<string>): nat
  {
    if |ts| == 0 then 0 else Count(c, ts[0]) + TotalCount(c, ts[1..])
  }

  /**
   * `string.Join(sep, ts)`: the tokens in order with one separator between
   * neighbours; no tokens give the empty text.
   */
  function Join(ts: seq<string>, sep: char): (r: string)
    ensures |ts| == 0 ==> r == ""
    ensures |ts| > 0 ==> |r| == TotalLength(ts) + |ts| - 1
    ensures |ts| > 0 ==> Count(sep, r) == TotalCount(sep, ts) + |ts| - 1
  {
    if |ts| == 0 then ""
    else if |ts| == 1 then ts[0]
    else
      CountAppend(sep, ts[0] + [sep], Join(ts[1..], sep));
      CountAppend(sep, ts[0], [sep]);
      assert Count(sep, [sep]) == 1;
      ts[0] + [sep] + Join(ts[1..], sep)
  }

  /** A character that is neither the separator nor in any token is not in the join. */
  lemma {:induction false} JoinAvoids(ts: seq<string>, sep: char, c: char)
    requires c != sep
    requires forall i :: 0 <= i < |ts| ==> c !in ts[i]
    ensures c !in Join(ts, sep)
  {
    if |ts| > 1 {
      JoinAvoids(ts[1..], sep, c);
    }
  }

  /** Joining a first token extended in front by one character. */
  lemma JoinExtendFirst(x: char, ts: seq<string>, sep: char)
    requires |ts| > 0
    ensures Join([[x] + ts[0]] + ts[1..], sep) == [x] + Join(ts, sep)
  {
    var us := [[x] + ts[0]] + ts[1..];
    if |ts| > 1 {
      assert us[1..] == ts[1..];
    }
  }

  /** Joining the tokens of a split gives back the text: split then join is the identity. */
  lemma {:induction false} JoinSplit(s: string, sep: char)
    ensures Join(Split(s, sep), sep) == s
  {
    if |s| > 0 {
      var rest := Split(s[1..], sep);
      JoinSplit(s[1..], sep);
      if s[0] == sep {
        assert ([""] + rest)[1..] == rest;
        assert s == [sep] + s[1..];
      } else {
        JoinExtendFirst(s[0], rest, sep);
        assert s == [s[0]] + s[1..];
      }
    }
  }

  /** A text without the separator is one token. */
  lemma {:induction false} SplitNoSeparator(s: string, sep: char)
    requires sep !in s
    ensures Split(s, sep) == [s]
  {
    if |s| > 0 {
      SplitNoSeparator(s[1..], sep);
      assert s == [s[0]] + s[1..];
    }
  }

  /** A separator cuts the token list in two: the tokens before it, then those after it. */
  lemma {:induction false} SplitAtSeparator(a: string, b: string, sep: char)
    ensures Split(a + [sep] + b, sep) == Split(a, sep) + Split(b, sep)
  {
    var s := a + [sep] + b;
    if |a| == 0 {
      assert s == [sep] + b;
      assert s[1..] == b;
    } else {
      assert s[1..] == a[1..] + [sep] + b;
      SplitAtSeparator(a[1..], b, sep);
      var left := Split(a[1..], sep);
      if a[0] != sep {
        assert (left + Split(b, sep))[1..] == left[1..] + Split(b, sep);
      }
    }
  }

  /** Two adjacent separators produce an empty token, which is kept. */
  lemma AdjacentSeparatorsKeepEmptyToken(a: string, b: string, sep: char)
    ensures Split(a + [sep, sep] + b, sep) == Split(a, sep) + [""] + Split(b, sep)
  {
    assert a + [sep, sep] + b == a + [sep] + ([sep] + b);
    SplitAtSeparator(a, [sep] + b, sep);
    assert [sep] + b == [] + [sep] + b;
    SplitAtSeparator([], b, sep);
  }

  /** A leading separator produces an empty first token. */
  lemma LeadingSeparatorKeepsEmptyToken(b: string, sep: char)
    ensures Split([sep] + b, sep) == [""] + Split(b, sep)
  {
    assert [sep] + b == [] + [sep] + b;
    SplitAtSeparator([], b, sep);
  }

  /** A trailing separator produces an empty last token. */
  lemma TrailingSeparatorKeepsEmptyToken(a: string, sep: char)
    ensures Split(a + [sep], sep) == Split(a, sep) + [""]
  {
    assert a + [sep] == a + [sep] + [];
    SplitAtSeparator(a, [], sep);
  }

  /**
   * Two token lists where the last token of `sx` and the first token of
   * `sy` are fused into one.
   */
  function Fuse(sx: seq<string>, sy: seq<string>): (r: seq<string>)
    requires |sx| > 0 && |sy| > 0
    ensures |r| == |sx| + |sy| - 1
  {
    sx[..|sx| - 1] + [sx[|sx| - 1] + sy[0]] + sy[1..]
  }

  /** Fusing commutes with putting a token in front. */
  lemma FusePrepend(t: string, sx: seq<string>, sy: seq<string>)
    requires |sx| > 0 && |sy| > 0
    ensures [t] + Fuse(sx, sy) == Fuse([t] + sx, sy)
  {
    assert ([t] + sx)[..|sx|] == [t] + sx[..|sx| - 1];
  }

  /** Fusing commutes with extending the first token in front. */
  lemma FuseExtendFirst(c: char, sx: seq<string>, sy: seq<string>)
    requires |sx| > 0 && |sy| > 0
    ensures var r := Fuse(sx, sy);
      [[c] + r[0]] + r[1..] == Fuse([[c] + sx[0]] + sx[1..], sy)
  {
    var r := Fuse(sx, sy);
    var ex := [[c] + sx[0]] + sx[1..];
    if |sx| == 1 {
      assert r == [sx[0] + sy[0]] + sy[1..];
      assert [c] + (sx[0] + sy[0]) == [c] + sx[0] + sy[0];
      assert ex[..0] == [];
    } else {
      assert r == [sx[0]] + (sx[1..|sx| - 1] + [sx[|sx| - 1] + sy[0]] + sy[1..]);
      assert ex[..|ex| - 1] == [[c] + sx[0]] + sx[1..|sx| - 1];
    }
  }

  /**
   * Splitting a concatenation: the last token of `x` and the first token
   * of `y` fuse into one token, the others are kept as they are.
   */
  lemma {:induction false} SplitConcat(x: string, y: string, sep: char)
    ensures Split(x + y, sep) == Fuse(Split(x, sep), Split(y, sep))
  {
    var sy := Split(y, sep);
    if |x| == 0 {
      assert x + y == y;
      assert Split(x, sep) == [""];
      assert "" + sy[0] == sy[0];
      assert sy == [sy[0]] + sy[1..];
    } else {
      assert (x + y)[1..] == x[1..] + y;
      SplitConcat(x[1..], y, sep);
      var tail := Split(x[1..], sep);
      if x[0] == sep {
        FusePrepend("", tail, sy);
      } else {
        FuseExtendFirst(x[0], tail, sy);
      }
    }
  }

  /** `k` leading separators produce `k` empty tokens before the tokens of the rest. */
  lemma {:induction false} LeadingSeparators(k: nat, b: string, sep: char)
    ensures Split(seq(k, _ => sep) + b, sep) == seq(k, _ => "") + Split(b, sep)
  {
    if k == 0 {
      assert seq(k, _ => sep) + b == b;
    } else {
      assert seq(k, _ => sep) + b == [sep] + (seq(k - 1, _ => sep) + b);
      LeadingSeparatorKeepsEmptyToken(seq(k - 1, _ => sep) + b, sep);
      LeadingSeparators(k - 1, b, sep);
      assert seq(k, _ => "") == [""] + seq(k - 1, _ => "");
    }
  }

  /**
   * Splitting the join of separator-free tokens gives the tokens back, so
   * Split and Join are inverse bijections between texts and non-empty token
   * lists whose tokens contain no separator.
   */
  lemma {:induction false} SplitJoin(ts: seq<string>, sep: char)
    requires |ts| > 0
    requires forall i :: 0 <= i < |ts| ==> sep !in ts[i]
    ensures Split(Join(ts, sep), sep) == ts
  {
    SplitNoSeparator(ts[0], sep);
    if |ts| > 1 {
      SplitJoin(ts[1..], sep);
      SplitAtSeparator(ts[0], Join(ts[1..], sep), sep);
      assert ts == [ts[0]] + ts[1..];
    }
  }
}
