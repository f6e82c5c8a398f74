/**
 * JavaScript strings as the app sees them: sequences of UTF-16 code units, so that
 * `s.length` is `|s|`, together with `String.prototype.trim`.
 */
module JsStrings {

  newtype CodeUnit = u: int | 0 <= u < 0x1_0000

  type JsString = seq<CodeUnit>

  /**
   * The code units `trim` strips: the WhiteSpace and LineTerminator code points of
   * ECMAScript (sections 12.2 and 12.3 of ECMA-262), all of which lie in the BMP.
   */
  predicate IsWhitespace(u: CodeUnit) {
    (0x09 <= u <= 0x0D) || u == 0x20 || u == 0xA0 || u == 0x1680
    || (0x2000 <= u <= 0x200A) || u == 0x2028 || u == 0x2029 || u == 0x202F
    || u == 0x205F || u == 0x3000 || u == 0xFEFF
  }

  predicate AllWhitespace(s: JsString) {
    forall i :: 0 <= i < |s| ==> IsWhitespace(s[i])
  }

  /** Number of whitespace code units at the front of `s`. */
  function LeadingSpace(s: JsString): (k: nat)
    ensures k <= |s|
    ensures AllWhitespace(s[..k])
    ensures k < |s| ==> !IsWhitespace(s[k])
  {
    if s == [] || !IsWhitespace(s[0]) then 0
    else
      var k' := LeadingSpace(s[1..]);
      assert s[..k' + 1] == [s[0]] + s[1..][..k'];
      1 + k'
  }

  /** Index at which the trailing run of whitespace of `s` begins. */
  function TrailingStart(s: JsString): (k: nat)
    ensures k <= |s|
    ensures AllWhitespace(s[k..])
    ensures k > 0 ==> !IsWhitespace(s[k - 1])
  {
    if s == [] || !IsWhitespace(s[|s| - 1]) then |s|
    else
      var k := TrailingStart(s[..|s| - 1]);
      assert s[k..] == s[..|s| - 1][k..] + [s[|s| - 1]];
      k
  }

  /** `s.trim()`: `s` without its leading and trailing whitespace. */
  function Trim(s: JsString): (r: JsString)
    ensures |r| <= |s|
    ensures r == [] <==> AllWhitespace(s)
    ensures r != [] ==> !IsWhitespace(r[0]) && !IsWhitespace(r[|r| - 1])
  {
    var rest := s[LeadingSpace(s)..];
    var r := rest[..TrailingStart(rest)];
    assert r == [] ==> s == s[..LeadingSpace(s)] + rest[..0] + rest[0..];
    r
  }

  /** `!s.trim()`: the string is empty or whitespace only. */
  predicate IsBlank(s: JsString) {
    Trim(s) == []
  }

  /** Trimming cuts a whitespace prefix and a whitespace suffix off `s`, and nothing else. */
  lemma TrimIsSlice(s: JsString)
    ensures var a := LeadingSpace(s); var r := Trim(s);
      a + |r| <= |s| && r == s[a..a + |r|]
      && AllWhitespace(s[..a]) && AllWhitespace(s[a + |r|..])
  {
    var a := LeadingSpace(s);
    var rest := s[a..];
    var b := TrailingStart(rest);
    assert Trim(s) == rest[..b];
    assert s[a + b..] == rest[b..];
  }

  /** Trimming twice is trimming once. */
  lemma TrimIdempotent(s: JsString)
    ensures Trim(Trim(s)) == Trim(s)
  {
    var r := Trim(s);
    if r != [] {
      assert LeadingSpace(r) == 0;
      assert TrailingStart(r) == |r|;
    }
  }
}
