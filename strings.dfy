/** The pieces of JavaScript's string semantics that extension.js relies on:
    `indexOf`, `startsWith`, `String.prototype.replace` with a string pattern
    (first occurrence only, `$` patterns in the replacement), line terminators
    (what a regular-expression `.` refuses) and number-to-decimal rendering.
    A `char` is a Unicode scalar value; JavaScript counts UTF-16 code units,
    and the two agree on text within the Basic Multilingual Plane. */
module Strings {
  import opened Wrappers

  /** LF, CR, LINE SEPARATOR and PARAGRAPH SEPARATOR: the characters `.` does not match. */
  predicate IsLineTerminator(c: char)
  {
    c == '\n' || c == '\r' || c as int == 0x2028 || c as int == 0x2029
  }

  /** The white space `parseInt` skips before the digits (ECMAScript StrWhiteSpaceChar). */
  predicate IsStrWhiteSpace(c: char)
  {
    var x := c as int;
    x == 0x09 || x == 0x0B || x == 0x0C || x == 0x20 || x == 0xA0 || x == 0xFEFF
    || x == 0x1680 || (0x2000 <= x <= 0x200A) || x == 0x202F || x == 0x205F || x == 0x3000
    || IsLineTerminator(c)
  }

  predicate NoLineTerminator(s: string)
  {
    forall k :: 0 <= k < |s| ==> !IsLineTerminator(s[k])
  }

  /** `s` begins with `p`. */
  predicate StartsWith(s: string, p: string)
  {
    |p| <= |s| && s[..|p|] == p
  }

  /** `p` occurs in `s` starting at index `k`. */
  predicate OccursAt(s: string, p: string, k: nat)
  {
    k + |p| <= |s| && s[k..k + |p|] == p
  }

  /** The first index at or after `k` where `p` occurs in `s`. */
  function IndexOfFrom(s: string, p: string, k: nat): (r: Option<nat>)
    decreases |s| - k
    ensures r.Some? ==> k <= r.value && OccursAt(s, p, r.value)
    ensures r.Some? ==> forall j :: k <= j < r.value ==> !OccursAt(s, p, j)
    ensures r.None? ==> forall j: nat :: k <= j ==> !OccursAt(s, p, j)
  {
    if k + |p| > |s| then None
    else if s[k..k + |p|] == p then Some(k)
    else IndexOfFrom(s, p, k + 1)
  }

  /** The first index where `p` occurs in `s`, with None where JavaScript gives -1. */
  function IndexOf(s: string, p: string): (r: Option<nat>)
    ensures r.Some? ==> OccursAt(s, p, r.value) && forall j :: 0 <= j < r.value ==> !OccursAt(s, p, j)
    ensures r.None? <==> forall j: nat :: !OccursAt(s, p, j)
  {
    IndexOfFrom(s, p, 0)
  }

  /** `p` occurs somewhere in `s`. */
  predicate Contains(s: string, p: string)
  {
    IndexOf(s, p).Some?
  }

  lemma OccursAtContains(s: string, p: string, k: nat)
    requires OccursAt(s, p, k)
    ensures Contains(s, p)
  {
  }

  /** The replacement text of `String.prototype.replace` when the pattern is a
      string (ECMAScript GetSubstitution with no captures): `$$` is `$`, `$&`
      the matched text, `` $` `` the text before it, `$'` the text after it;
      any other `$` stands for itself. */
  function Substitute(rep: string, matched: string, before: string, after: string): (r: string)
    decreases |rep|
    ensures (forall k :: 0 <= k < |rep| ==> rep[k] != '$') ==> r == rep
  {
    if |rep| == 0 then ""
    else if rep[0] == '$' && |rep| >= 2 && rep[1] == '$' then "$" + Substitute(rep[2..], matched, before, after)
    else if rep[0] == '$' && |rep| >= 2 && rep[1] == '&' then matched + Substitute(rep[2..], matched, before, after)
    else if rep[0] == '$' && |rep| >= 2 && rep[1] == '`' then before + Substitute(rep[2..], matched, before, after)
    else if rep[0] == '$' && |rep| >= 2 && rep[1] == '\'' then after + Substitute(rep[2..], matched, before, after)
    else [rep[0]] + Substitute(rep[1..], matched, before, after)
  }

  /** Replacement with a string pattern: only the first occurrence of `p` is replaced. */
  function ReplaceFirst(s: string, p: string, rep: string): (r: string)
    ensures IndexOf(s, p).None? ==> r == s
    ensures IndexOf(s, p).Some? && (forall k :: 0 <= k < |rep| ==> rep[k] != '$') ==>
      var i := IndexOf(s, p).value; r == s[..i] + rep + s[i + |p|..]
  {
    match IndexOf(s, p)
    case None => s
    case Some(i) => s[..i] + Substitute(rep, p, s[..i], s[i + |p|..]) + s[i + |p|..]
  }

  /** Whatever the replacement, `$` patterns included, only the first
      occurrence is rewritten: the text before it and the text after it are
      kept as they were. */
  lemma ReplaceFirstKeepsContext(s: string, p: string, rep: string)
    requires IndexOf(s, p).Some?
    ensures var i := IndexOf(s, p).value;
      var r := ReplaceFirst(s, p, rep);
      && i <= |r| && r[..i] == s[..i]
      && |s| - i - |p| <= |r| - i
      && r[|r| - (|s| - i - |p|)..] == s[i + |p|..]
  {
  }

  /** A replacement with no `$` at the first occurrence, which comes no later
      than a known occurrence at `x`: the text from `x + |p|` on is kept. */
  lemma ReplaceFirstKeepsTail(t: string, p: string, rep: string, x: nat, n: nat)
    requires OccursAt(t, p, x) && n <= |t| - x - |p|
    requires forall k :: 0 <= k < |rep| ==> rep[k] != '$'
    ensures var r := ReplaceFirst(t, p, rep);
      |r| == |t| - |p| + |rep| && r[|r| - n..] == t[|t| - n..]
  {
    var j := IndexOf(t, p).value;
    assert j <= x;
    var r := ReplaceFirst(t, p, rep);
    assert r == t[..j] + rep + t[j + |p|..];
    assert r[|r| - n..] == t[j + |p|..][|t| - j - |p| - n..];
  }

  /** Replacing twice with a `$`-free text that ends with the pattern: the
      second replacement lands no later than the pattern the first one wrote,
      so the text after the first occurrence is kept through both. */
  lemma ReplaceFirstTwice(s: string, p: string, rep: string)
    requires IndexOf(s, p).Some? && |p| <= |rep| && rep[|rep| - |p|..] == p
    requires forall k :: 0 <= k < |rep| ==> rep[k] != '$'
    ensures var i := IndexOf(s, p).value;
      var r := ReplaceFirst(ReplaceFirst(s, p, rep), p, rep);
      && |r| == |s| + 2 * (|rep| - |p|)
      && r[|r| - (|s| - i - |p|)..] == s[i + |p|..]
  {
    var i := IndexOf(s, p).value;
    var r1 := ReplaceFirst(s, p, rep);
    assert r1 == s[..i] + rep + s[i + |p|..];
    var x := i + |rep| - |p|;
    assert r1[x..x + |p|] == rep[|rep| - |p|..];
    var tail := s[i + |p|..];
    assert r1[|r1| - |tail|..] == tail;
    ReplaceFirstKeepsTail(r1, p, rep, x, |tail|);
  }

  predicate IsDigit(c: char)
  {
    '0' <= c <= '9'
  }

  predicate AllDigits(s: string)
  {
    forall k :: 0 <= k < |s| ==> IsDigit(s[k])
  }

  function DigitChar(d: nat): (c: char)
    requires d < 10
    ensures IsDigit(c) && c as int - '0' as int == d
  {
    ('0' as int + d) as char
  }

  /** The decimal digits of `n`: no leading zero except for 0 itself. This is
      how `Number.prototype.toString` writes the channel values (below 256)
      that the model prints; from 1e21 upward JavaScript would switch to
      exponent notation, which is not modelled. */
  function NatToDecimal(n: nat): (r: string)
    decreases n
    ensures |r| > 0 && AllDigits(r)
    ensures r[0] == '0' <==> n == 0
    ensures r[0] == '0' ==> |r| == 1
  {
    if n < 10 then [DigitChar(n)] else NatToDecimal(n / 10) + [DigitChar(n % 10)]
  }

  /** The value of a string of decimal digits: the reading partner of NatToDecimal. */
  function DecimalValue(s: string): nat
    requires AllDigits(s)
  {
    if s == [] then 0
    else 10 * DecimalValue(s[..|s| - 1]) + (s[|s| - 1] as int - '0' as int)
  }

  lemma {:induction false} DecimalRoundTrip(n: nat)
    ensures DecimalValue(NatToDecimal(n)) == n
  {
    if n >= 10 {
      DecimalRoundTrip(n / 10);
      var s := NatToDecimal(n);
      assert s[..|s| - 1] == NatToDecimal(n / 10);
    }
  }

  /** How JavaScript writes an integer-valued number: a minus sign before the
      digits of its magnitude when it is negative (`-0` is written `0`). */
  function IntToDecimal(i: int): string
  {
    if i < 0 then "-" + NatToDecimal(-i) else NatToDecimal(i)
  }

  /** The text reads back as the number: its digits, after a minus sign when negative. */
  lemma IntToDecimalValue(i: int)
    ensures var r := IntToDecimal(i);
      && (i >= 0 ==> AllDigits(r) && DecimalValue(r) == i)
      && (i < 0 ==> |r| > 1 && r[0] == '-' && AllDigits(r[1..]) && DecimalValue(r[1..]) == -i)
  {
    DecimalRoundTrip(if i >= 0 then i else -i);
    if i < 0 {
      assert IntToDecimal(i)[1..] == NatToDecimal(-i);
    }
  }
}
