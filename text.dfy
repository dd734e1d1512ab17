/** The three string operations of Python the script relies on. */
module Text {

  /** `s.split(sep)` for a one-character separator: the pieces between separators. */
  function Split(s: string, sep: char): (pieces: seq<string>)
    ensures |pieces| >= 1
  {
    if s == [] then [""]
    else
      var rest := Split(s[1..], sep);
      if s[0] == sep then [""] + rest
      else [[s[0]] + rest[0]] + rest[1..]
  }

  /** `sep.join(pieces)` */
  function Join(pieces: seq<string>, sep: char): string
    requires |pieces| >= 1
  {
    if |pieces| == 1 then pieces[0] else pieces[0] + [sep] + Join(pieces[1..], sep)
  }

  /** How often `c` occurs in `s`. */
  function Occurrences(s: string, c: char): nat {
    if s == [] then 0 else (if s[0] == c then 1 else 0) + Occurrences(s[1..], c)
  }

  /** No piece contains the separator. */
  lemma {:induction false} SplitPiecesFree(s: string, sep: char)
    ensures forall p :: p in Split(s, sep) ==> sep !in p
  {
    if s != [] {
      SplitPiecesFree(s[1..], sep);
      var rest := Split(s[1..], sep);
      if s[0] != sep {
        assert rest[0] in rest;
        assert Split(s, sep) == [[s[0]] + rest[0]] + rest[1..];
        forall p | p in rest[1..]
          ensures p in rest
        {
        }
      }
    }
  }

  /** Joining the pieces back with the separator gives the original string. */
  lemma {:induction false} JoinSplit(s: string, sep: char)
    ensures Join(Split(s, sep), sep) == s
  {
    if s != [] {
      JoinSplit(s[1..], sep);
      var rest := Split(s[1..], sep);
      if s[0] != sep && |rest| > 1 {
        assert rest == [rest[0]] + rest[1..];
        assert Join(rest, sep) == rest[0] + [sep] + Join(rest[1..], sep);
      }
    }
  }

  /** Splitting a join of separator-free pieces gives the pieces back. */
  lemma {:induction false} SplitJoin(pieces: seq<string>, sep: char)
    requires |pieces| >= 1
    requires forall p :: p in pieces ==> sep !in p
    ensures Split(Join(pieces, sep), sep) == pieces
  {
    if |pieces| == 1 {
      SplitPlain(pieces[0], sep);
    } else {
      SplitJoin(pieces[1..], sep);
      var tail := Join(pieces[1..], sep);
      SplitPrefix(pieces[0], [sep] + tail, sep);
      assert ([sep] + tail)[1..] == tail;
      assert Split([sep] + tail, sep) == [""] + pieces[1..];
      assert pieces[0] + [sep] + tail == pieces[0] + ([sep] + tail);
      assert pieces[0] + "" == pieces[0];
      assert [pieces[0]] + pieces[1..] == pieces;
    }
  }

  /** A string without the separator splits into itself. */
  lemma {:induction false} SplitPlain(s: string, sep: char)
    requires sep !in s
    ensures Split(s, sep) == [s]
  {
    if s != [] {
      SplitPlain(s[1..], sep);
      assert [s[0]] + s[1..] == s;
    }
  }

  /** A separator-free prefix glues onto the first piece of what follows it. */
  lemma {:induction false} SplitPrefix(a: string, b: string, sep: char)
    requires sep !in a
    ensures Split(a + b, sep) == [a + Split(b, sep)[0]] + Split(b, sep)[1..]
  {
    if a != [] {
      SplitPrefix(a[1..], b, sep);
      assert (a + b)[1..] == a[1..] + b;
      assert [a[0]] + (a[1..] + Split(b, sep)[0]) == a + Split(b, sep)[0];
    } else {
      assert a + b == b;
      assert a + Split(b, sep)[0] == Split(b, sep)[0];
      assert [Split(b, sep)[0]] + Split(b, sep)[1..] == Split(b, sep);
    }
  }

  /** There is one piece more than there are separators. */
  lemma {:induction false} SplitCount(s: string, sep: char)
    ensures |Split(s, sep)| == Occurrences(s, sep) + 1
  {
    if s != [] {
      SplitCount(s[1..], sep);
    }
  }

  /** The end of the run of `c` that starts at `from`. */
  function RunFrom(s: string, c: char, from: nat): (e: nat)
    requires from <= |s|
    ensures from <= e <= |s|
    decreases |s| - from
  {
    if from < |s| && s[from] == c then RunFrom(s, c, from + 1) else from
  }

  /** The start of the run of `c` that ends just before `to`. */
  function RunTo(s: string, c: char, to: nat): (b: nat)
    requires to <= |s|
    ensures b <= to
  {
    if to > 0 && s[to - 1] == c then RunTo(s, c, to - 1) else to
  }

  /** `RunFrom` stops at the first position from `from` on that does not hold `c`. */
  lemma {:induction false} RunFromSpec(s: string, c: char, from: nat)
    requires from <= |s|
    ensures var e := RunFrom(s, c, from);
      && (forall k :: from <= k < e ==> s[k] == c)
      && (e < |s| ==> s[e] != c)
    decreases |s| - from
  {
    if from < |s| && s[from] == c {
      RunFromSpec(s, c, from + 1);
    }
  }

  /** `RunTo` stops at the last position before `to` that does not hold `c`. */
  lemma {:induction false} RunToSpec(s: string, c: char, to: nat)
    requires to <= |s|
    ensures var b := RunTo(s, c, to);
      && (forall k :: b <= k < to ==> s[k] == c)
      && (b > 0 ==> s[b - 1] != c)
  {
    if to > 0 && s[to - 1] == c {
      RunToSpec(s, c, to - 1);
    }
  }

  /** `s.lstrip(c)` */
  function StripLeft(s: string, c: char): string {
    s[RunFrom(s, c, 0)..]
  }

  /** `s.rstrip(c)` */
  function StripRight(s: string, c: char): string {
    s[..RunTo(s, c, |s|)]
  }

  /** `s.strip(c)` */
  function Strip(s: string, c: char): string {
    StripRight(StripLeft(s, c), c)
  }

  /**
   * `strip` leaves the slice of `s` between a prefix and a suffix made only
   * of `c`, and that slice neither starts nor ends with `c`.
   */
  lemma StripSpec(s: string, c: char)
    ensures var r := Strip(s, c);
      && (exists a, b ::
            && 0 <= a <= b <= |s| && r == s[a..b]
            && (forall k :: 0 <= k < a ==> s[k] == c)
            && (forall k :: b <= k < |s| ==> s[k] == c))
      && (r != [] ==> r[0] != c && r[|r| - 1] != c)
  {
    var a := RunFrom(s, c, 0);
    RunFromSpec(s, c, 0);
    var left := s[a..];
    var e := RunTo(left, c, |left|);
    RunToSpec(left, c, |left|);
    assert Strip(s, c) == s[a..a + e];
    assert forall k :: a + e <= k < |s| ==> s[k] == left[k - a];
  }

  /** Stripping twice removes nothing more. */
  lemma StripIdempotent(s: string, c: char)
    ensures Strip(Strip(s, c), c) == Strip(s, c)
  {
    var r := Strip(s, c);
    StripSpec(s, c);
    if r != [] {
      assert StripLeft(r, c) == r;
      assert StripRight(r, c) == r;
    }
  }

  predicate IsPrefix(k: string, s: string) {
    |k| <= |s| && s[..|k|] == k
  }

  /** `k` occurs in `s` starting at position `i`. */
  predicate OccursAt(s: string, k: string, i: int) {
    0 <= i <= |s| - |k| && s[i..i + |k|] == k
  }

  /** Python's `k in s` for two strings: `k` occurs in `s` as a contiguous slice. */
  function Contains(s: string, k: string): bool
  {
    if IsPrefix(k, s) then true
    else if s == [] then false
    else Contains(s[1..], k)
  }

  /** `Contains` is exactly "occurs at some position". */
  lemma {:induction false} ContainsAt(s: string, k: string)
    ensures Contains(s, k) <==> exists i :: OccursAt(s, k, i)
  {
    if IsPrefix(k, s) {
      assert OccursAt(s, k, 0);
    } else if s != [] {
      ContainsAt(s[1..], k);
      if Contains(s[1..], k) {
        var i :| OccursAt(s[1..], k, i);
        assert s[1..][i..i + |k|] == s[i + 1..i + 1 + |k|];
        assert OccursAt(s, k, i + 1);
      } else {
        forall i | 0 <= i <= |s| - |k|
          ensures !OccursAt(s, k, i)
        {
          if i > 0 {
            assert s[1..][i - 1..i - 1 + |k|] == s[i..i + |k|];
            assert !OccursAt(s[1..], k, i - 1);
          } else {
            assert s[..|k|] == s[0..0 + |k|];
          }
        }
      }
    } else {
      assert forall i :: !OccursAt(s, k, i);
    }
  }

  /** The empty string is in every string, as in Python. */
  lemma EmptyIsContained(s: string)
    ensures Contains(s, "")
  {
    assert IsPrefix("", s);
  }
}
