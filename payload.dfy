/**
 * Cutting the JSON payload out of the callback-wrapped response text:
 * `re.search("\(+([^)]*)\)+", text).group(1)`.
 */
module Payload {
  import opened Wrappers
  import Text

  /** The first position at or after `from` that holds `c`, or `|s|` if there is none. */
  function IndexFrom(s: string, c: char, from: nat): (r: nat)
    requires from <= |s|
    ensures from <= r <= |s|
    ensures forall k :: from <= k < r ==> s[k] != c
    ensures r < |s| ==> s[r] == c
    decreases |s| - from
  {
    if from == |s| || s[from] == c then from else IndexFrom(s, c, from + 1)
  }

  /** Some `(` is followed, later in the text, by some `)`. */
  predicate HasMatch(s: string) {
    exists i, j :: 0 <= i < j < |s| && s[i] == '(' && s[j] == ')'
  }

  /**
   * The regular expression's leftmost match captures `s[a..b]`: the `(`s of
   * `s[..a]` form one run that ends at `a`, is not continued at `a`, and
   * `b` is the first `)` from `a` on.
   */
  ghost predicate CutAt(s: string, a: int, b: int) {
    && 0 < a <= b < |s|
    && s[a - 1] == '('
    && s[a] != '('
    && (forall k :: 0 <= k < a - 1 ==> s[k] == '(' ==> s[k + 1] == '(')
    && (forall k :: a <= k < b ==> s[k] != ')')
    && s[b] == ')'
  }

  /**
   * The captured group, or `None` when the search finds no match (the
   * script then fails calling `.group` on `None`).
   */
  function ExtractPayload(s: string): (r: Option<string>)
    ensures r.Some? <==> HasMatch(s)
    ensures r.Some? ==> exists a, b :: CutAt(s, a, b) && r.value == s[a..b]
    ensures r.Some? ==> ')' !in r.value
  {
    var open := IndexFrom(s, '(', 0);
    if open == |s| then None
    else
      var start := Text.RunFrom(s, '(', open);
      Text.RunFromSpec(s, '(', open);
      var close := IndexFrom(s, ')', start);
      if close == |s| then None
      else
        assert CutAt(s, start, close);
        Some(s[start..close])
  }

  /** The leftmost match is unique: two cuts of the same text coincide. */
  lemma CutIsUnique(s: string, a: int, b: int, a': int, b': int)
    requires CutAt(s, a, b) && CutAt(s, a', b')
    ensures a == a' && b == b'
  {
  }

  /** A run of `(` is skipped as a whole and the first `)` ends the payload. */
  lemma RunOfParens()
    ensures ExtractPayload("f((x))") == Some("x")
  {
    var s := "f((x))";
    assert s[1] == '(' && s[4] == ')';
    var r := ExtractPayload(s);
    var a, b :| CutAt(s, a, b) && r.value == s[a..b];
    assert CutAt(s, 3, 4);
    CutIsUnique(s, a, b, 3, 4);
    assert s[3..4] == "x";
  }

  /**
   * A callback-wrapped body comes back out: the text before the `(` has no
   * `(`, the body has no `)` and does not start with `(`.
   */
  lemma WrappedPayload(p: string, body: string, t: string)
    requires '(' !in p && ')' !in body
    requires body == [] || body[0] != '('
    ensures ExtractPayload(p + "(" + body + ")" + t) == Some(body)
  {
    var s := p + "(" + body + ")" + t;
    var a0, b0 := |p| + 1, |p| + 1 + |body|;
    assert s[a0 - 1] == '(' && s[b0] == ')';
    assert forall k :: 0 <= k < a0 - 1 ==> s[k] == p[k];
    assert forall k :: a0 <= k < b0 ==> s[k] == body[k - a0];
    assert CutAt(s, a0, b0);
    var r := ExtractPayload(s);
    var a, b :| CutAt(s, a, b) && r.value == s[a..b];
    CutIsUnique(s, a, b, a0, b0);
    assert s[a0..b0] == body;
  }
}
