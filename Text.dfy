/**
 * JavaScript's `String.prototype.trim`, which the handlers apply to comment
 * and tweet content before testing it and storing it.
 */
module Text {

  /**
   * The characters `trim` strips: the WhiteSpace and LineTerminator code
   * points of ECMAScript (tab, line tabulation, form feed, space, no-break
   * space, byte-order mark, the space separators of Unicode category Zs,
   * line feed, carriage return, line and paragraph separators).
   */
  predicate IsBlank(c: char) {
    var n := c as int;
    n == 0x09 || n == 0x0A || n == 0x0B || n == 0x0C || n == 0x0D || n == 0x20
    || n == 0xA0 || n == 0x1680 || (0x2000 <= n <= 0x200A) || n == 0x2028
    || n == 0x2029 || n == 0x202F || n == 0x205F || n == 0x3000 || n == 0xFEFF
  }

  predicate AllBlank(s: string) {
    forall k :: 0 <= k < |s| ==> IsBlank(s[k])
  }

  /** The number of blank characters at the start of `s`. */
  function LeadingBlanks(s: string): (n: nat)
    ensures n <= |s|
    ensures forall k :: 0 <= k < n ==> IsBlank(s[k])
    ensures n < |s| ==> !IsBlank(s[n])
  {
    if s == [] || !IsBlank(s[0]) then 0 else 1 + LeadingBlanks(s[1..])
  }

  /** The position where the blank characters at the end of `s` begin. */
  function TrailingStart(s: string): (n: nat)
    ensures n <= |s|
    ensures forall k :: n <= k < |s| ==> IsBlank(s[k])
    ensures n > 0 ==> !IsBlank(s[n - 1])
  {
    if s == [] || !IsBlank(s[|s| - 1]) then |s| else TrailingStart(s[..|s| - 1])
  }

  /** `s` without its leading and trailing blanks. */
  function Trim(s: string): (r: string)
    ensures r == [] <==> AllBlank(s)
    ensures r != [] ==> !IsBlank(r[0]) && !IsBlank(r[|r| - 1])
    ensures r != [] ==> r == s[LeadingBlanks(s)..TrailingStart(s)]
  {
    var i := LeadingBlanks(s);
    if i == |s| then []
    else
      assert !IsBlank(s[i]);
      s[i..TrailingStart(s)]
  }

  /** Trimming twice is trimming once: stored content is already trimmed. */
  lemma TrimIdempotent(s: string)
    ensures Trim(Trim(s)) == Trim(s)
  {
    var r := Trim(s);
    if r != [] {
      assert LeadingBlanks(r) == 0;
      assert TrailingStart(r) == |r|;
      assert r[0..|r|] == r;
    }
  }

  /** Trimmed content that passes the handlers' test has a non-blank character. */
  lemma TrimmedContentNotBlank(s: string)
    requires Trim(s) != []
    ensures !AllBlank(Trim(s))
  {
    assert !IsBlank(Trim(s)[0]);
  }
}
