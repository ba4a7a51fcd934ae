/** The three Python string operations the parser relies on: `str.isspace`
    for one character, `str.strip()` with no argument, and `str.split(sep)`
    with a non-empty separator (with `sep.join` as its inverse). */
module Text {

  /** Python's `str.isspace()` for a single character: the characters of
      Unicode category Zs or bidirectional class WS, B or S. */
  predicate IsSpace(c: char) {
    || ('\t' <= c <= '\r')
    || ('\U{1c}' <= c <= '\U{1f}')
    || c == ' '
    || c == '\U{85}'
    || c == '\U{a0}'
    || c == '\U{1680}'
    || ('\U{2000}' <= c <= '\U{200a}')
    || c == '\U{2028}'
    || c == '\U{2029}'
    || c == '\U{202f}'
    || c == '\U{205f}'
    || c == '\U{3000}'
  }

  /** Every character of `s` is whitespace (vacuously true of ""). */
  predicate AllSpace(s: string) {
    forall i :: 0 <= i < |s| ==> IsSpace(s[i])
  }

  /** Neither the first nor the last character of `s` is whitespace. */
  predicate IsStripped(s: string) {
    |s| == 0 || (!IsSpace(s[0]) && !IsSpace(s[|s| - 1]))
  }

  /** `x` occurs in `s` as a contiguous run (Python's `x in s`). */
  predicate IsInfix(x: string, s: string)
    decreases |s|
  {
    |x| <= |s| && (s[..|x|] == x || (|s| > 0 && IsInfix(x, s[1..])))
  }

  /** The end of the whitespace run of `s` that starts at index `i`. */
  function SpaceRunEnd(s: string, i: nat): (lo: nat)
    requires i <= |s|
    ensures i <= lo <= |s|
    ensures forall k :: i <= k < lo ==> IsSpace(s[k])
    ensures lo < |s| ==> !IsSpace(s[lo])
    decreases |s| - i
  {
    if i < |s| && IsSpace(s[i]) then SpaceRunEnd(s, i + 1) else i
  }

  /** The start of the whitespace run of `s` that ends at index `j`, not
      going below `lo`. */
  function SpaceRunStart(s: string, lo: nat, j: nat): (hi: nat)
    requires lo <= j <= |s|
    ensures lo <= hi <= j
    ensures forall k :: hi <= k < j ==> IsSpace(s[k])
    ensures hi > lo ==> !IsSpace(s[hi - 1])
    decreases j
  {
    if j > lo && IsSpace(s[j - 1]) then SpaceRunStart(s, lo, j - 1) else j
  }

  /** Python's `s.strip()`: `s` with its leading and trailing whitespace
      removed. */
  function Strip(s: string): (r: string)
    ensures IsStripped(r)
    ensures r == [] <==> AllSpace(s)
    ensures IsStripped(s) ==> r == s
  {
    var lo := SpaceRunEnd(s, 0);
    s[lo..SpaceRunStart(s, lo, |s|)]
  }

  /** `Strip` removes nothing but outer whitespace: what it keeps is a
      contiguous run of `s` between two whitespace runs. */
  lemma StripKeepsInfix(s: string)
    ensures exists lo ::
      && 0 <= lo <= |s| - |Strip(s)| && Strip(s) == s[lo..lo + |Strip(s)|]
      && AllSpace(s[..lo]) && AllSpace(s[lo + |Strip(s)|..])
  {
    var lo := SpaceRunEnd(s, 0);
    var hi := SpaceRunStart(s, lo, |s|);
    assert Strip(s) == s[lo..hi];
    assert AllSpace(s[..lo]);
    assert AllSpace(s[hi..]);
  }

  /** `Strip` introduces no character that `s` lacks. */
  lemma StripAddsNothing(s: string, c: char)
    requires c !in s
    ensures c !in Strip(s)
  {
    var lo := SpaceRunEnd(s, 0);
    assert Strip(s) == s[lo..SpaceRunStart(s, lo, |s|)];
  }

  /** Python's `s.split(sep)` for a non-empty separator: the pieces between
      the non-overlapping occurrences of `sep`, found left to right. */
  function Split(s: string, sep: string): (r: seq<string>)
    requires |sep| > 0
    ensures |r| >= 1
    ensures r[0] <= s
    ensures |s| > 0 && (|s| < |sep| || s[..|sep|] != sep) ==> |r[0]| > 0
    decreases |s|
  {
    if |s| < |sep| then [s]
    else if s[..|sep|] == sep then [[]] + Split(s[|sep|..], sep)
    else
      var rest := Split(s[1..], sep);
      [[s[0]] + rest[0]] + rest[1..]
  }

  /** Python's `sep.join(parts)`. */
  function Join(parts: seq<string>, sep: string): string
    decreases |parts|
  {
    if |parts| == 0 then []
    else if |parts| == 1 then parts[0]
    else parts[0] + sep + Join(parts[1..], sep)
  }

  /** Joining the pieces of a split with the same separator gives back the
      original text: splitting loses nothing. */
  lemma {:induction false} JoinSplit(s: string, sep: string)
    requires |sep| > 0
    ensures Join(Split(s, sep), sep) == s
    decreases |s|
  {
    if |s| < |sep| {
    } else if s[..|sep|] == sep {
      var rest := Split(s[|sep|..], sep);
      JoinSplit(s[|sep|..], sep);
      assert Split(s, sep) == [[]] + rest;
      assert ([[]] + rest)[1..] == rest;
      assert sep + s[|sep|..] == s;
    } else {
      var rest := Split(s[1..], sep);
      JoinSplit(s[1..], sep);
      JoinExtendsHead(s[0], rest, sep);
      assert [s[0]] + s[1..] == s;
    }
  }

  /** Prepending a character to the first piece prepends it to the join. */
  lemma JoinExtendsHead(c: char, parts: seq<string>, sep: string)
    requires |parts| >= 1
    ensures Join([[c] + parts[0]] + parts[1..], sep) == [c] + Join(parts, sep)
  {
    var r := [[c] + parts[0]] + parts[1..];
    if |parts| > 1 {
      assert r[1..] == parts[1..];
    }
  }

  /** No piece of a split contains the separator: every occurrence of `sep`
      in the input was consumed as a boundary. */
  lemma {:induction false} SplitPiecesAvoidSeparator(s: string, sep: string)
    requires |sep| > 0
    ensures forall k :: 0 <= k < |Split(s, sep)| ==> !IsInfix(sep, Split(s, sep)[k])
    decreases |s|
  {
    var r := Split(s, sep);
    if |s| < |sep| {
      assert r == [s];
    } else if s[..|sep|] == sep {
      var rest := Split(s[|sep|..], sep);
      SplitPiecesAvoidSeparator(s[|sep|..], sep);
      assert r == [[]] + rest;
      forall k | 0 <= k < |r| ensures !IsInfix(sep, r[k]) {
        if k > 0 {
          assert r[k] == rest[k - 1];
        }
      }
    } else {
      var rest := Split(s[1..], sep);
      SplitPiecesAvoidSeparator(s[1..], sep);
      var first := [s[0]] + rest[0];
      assert r == [first] + rest[1..];
      assert first[1..] == rest[0];
      assert first <= s;
      if |sep| <= |first| {
        assert first[..|sep|] == s[..|sep|];
      }
      assert !IsInfix(sep, first);
      forall k | 0 <= k < |r| ensures !IsInfix(sep, r[k]) {
        if k > 0 {
          assert r[k] == rest[k];
        }
      }
    }
  }

  /** Every cut is at the leftmost occurrence of `sep`: no occurrence of
      `sep` starts inside a piece that is followed by a separator. With
      `JoinSplit` and `SplitPiecesAvoidSeparator` this fixes the pieces
      even for a separator that can overlap itself, such as "\n\n". */
  lemma {:induction false} SplitCutsLeftmost(s: string, sep: string)
    requires |sep| > 0
    ensures forall k :: 0 <= k < |Split(s, sep)| - 1 ==>
              !IsInfix(sep, Split(s, sep)[k] + sep[..|sep| - 1])
    decreases |s|
  {
    var r := Split(s, sep);
    if |s| < |sep| {
      assert r == [s];
    } else if s[..|sep|] == sep {
      var rest := Split(s[|sep|..], sep);
      SplitCutsLeftmost(s[|sep|..], sep);
      assert r == [[]] + rest;
      forall k | 0 <= k < |r| - 1 ensures !IsInfix(sep, r[k] + sep[..|sep| - 1]) {
        if k > 0 {
          assert r[k] == rest[k - 1];
        } else {
          assert r[k] + sep[..|sep| - 1] == sep[..|sep| - 1];
        }
      }
    } else {
      var rest := Split(s[1..], sep);
      SplitCutsLeftmost(s[1..], sep);
      var first := [s[0]] + rest[0];
      assert r == [first] + rest[1..];
      forall k | 0 <= k < |r| - 1 ensures !IsInfix(sep, r[k] + sep[..|sep| - 1]) {
        if k > 0 {
          assert r[k] == rest[k];
        } else {
          FirstCutIsLeftmost(s, sep);
        }
      }
    }
  }

  /** The step of `SplitCutsLeftmost` where `s` does not start with `sep`:
      the first piece, extended by all but the last character of `sep`,
      is a prefix of `s` and holds no `sep`. */
  lemma FirstCutIsLeftmost(s: string, sep: string)
    requires |sep| > 0 && |s| >= |sep| && s[..|sep|] != sep
    requires |Split(s[1..], sep)| > 1
    requires !IsInfix(sep, Split(s[1..], sep)[0] + sep[..|sep| - 1])
    ensures !IsInfix(sep, Split(s, sep)[0] + sep[..|sep| - 1])
  {
    var rest := Split(s[1..], sep);
    assert Split(s, sep)[0] == [s[0]] + rest[0];
    assert s[1..] == rest[0] + sep + Join(rest[1..], sep) by {
      JoinSplit(s[1..], sep);
    }
    NoEarlierOccurrence(s, rest[0], sep, Join(rest[1..], sep));
  }

  /** If `s` is one character, then `a`, then `sep`, and `sep` neither
      starts `s` nor occurs early in `a` followed by a part of `sep`, then
      it does not occur early in `s[0]`, `a` followed by a part of `sep`. */
  lemma NoEarlierOccurrence(s: string, a: string, sep: string, j: string)
    requires |sep| > 0 && |s| >= |sep| && s[..|sep|] != sep
    requires s[1..] == a + sep + j
    requires !IsInfix(sep, a + sep[..|sep| - 1])
    ensures !IsInfix(sep, [s[0]] + a + sep[..|sep| - 1])
  {
    var t := [s[0]] + a + sep[..|sep| - 1];
    assert t[1..] == a + sep[..|sep| - 1];
    if |sep| <= |t| {
      forall i | 0 <= i < |sep| ensures t[i] == s[i] {
        if i > 0 {
          assert t[i] == t[1..][i - 1];
          assert s[i] == s[1..][i - 1];
        }
      }
      assert t[..|sep|] == s[..|sep|];
    }
  }

  /** A split produces more than one piece exactly when the separator
      occurs in the input. */
  lemma {:induction false} SplitManyIffInfix(s: string, sep: string)
    requires |sep| > 0
    ensures |Split(s, sep)| > 1 <==> IsInfix(sep, s)
    decreases |s|
  {
    if |s| < |sep| {
    } else if s[..|sep|] == sep {
      assert IsInfix(sep, s);
    } else {
      SplitManyIffInfix(s[1..], sep);
      assert IsInfix(sep, s) <==> IsInfix(sep, s[1..]);
    }
  }

  /** A one-character separator occurs in `s` exactly when its character does. */
  lemma {:induction false} InfixSingle(c: char, s: string)
    ensures IsInfix([c], s) <==> c in s
    decreases |s|
  {
    if |s| > 0 {
      InfixSingle(c, s[1..]);
      assert s == [s[0]] + s[1..];
      assert c in s <==> c == s[0] || c in s[1..];
    }
  }
}
