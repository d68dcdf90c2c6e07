/**
 * UTF-8 well-formedness as in section 4 of RFC 3629, and the validator of Rust's
 * `std::str::from_utf8`, which reports where the valid prefix ends (`valid_up_to`)
 * and how long the offending chunk is (`error_len`, `None` when the input ends
 * inside a character).
 *
 * `IsChar` and `Valid` transcribe the RFC's grammar; `StepAt` and `Scan` follow the
 * validator byte by byte. The lemmas connect the two: `Scan` accepts exactly the
 * well-formed sequences, and an error chunk is a "maximal subpart of an ill-formed
 * subsequence" (chapter 3, section 3.9 of the Unicode Standard).
 */
module Utf8 {
  import opened Io

  predicate Tail(b: byte) {
    0x80 <= b <= 0xBF
  }

  /** UTF8-char = UTF8-1 / UTF8-2 / UTF8-3 / UTF8-4 */
  predicate IsChar(c: seq<byte>) {
    || (|c| == 1 && c[0] <= 0x7F)
    || (|c| == 2 && 0xC2 <= c[0] <= 0xDF && Tail(c[1]))
    || (|c| == 3 && Tail(c[2]) && (
          || (c[0] == 0xE0 && 0xA0 <= c[1] <= 0xBF)
          || (0xE1 <= c[0] <= 0xEC && Tail(c[1]))
          || (c[0] == 0xED && 0x80 <= c[1] <= 0x9F)
          || (0xEE <= c[0] <= 0xEF && Tail(c[1]))))
    || (|c| == 4 && Tail(c[2]) && Tail(c[3]) && (
          || (c[0] == 0xF0 && 0x90 <= c[1] <= 0xBF)
          || (0xF1 <= c[0] <= 0xF3 && Tail(c[1]))
          || (c[0] == 0xF4 && 0x80 <= c[1] <= 0x8F)))
  }

  /**
   * UTF8-octets = *( UTF8-char ). The leading byte of a UTF8-char determines its
   * length (`CharWidth`), so a sequence splits into characters in at most one way and
   * the first one is `Width(s[0])` bytes long.
   */
  predicate Valid(s: seq<byte>)
    decreases |s|
  {
    || s == []
    || (var w := Width(s[0]); 1 <= w <= |s| && IsChar(s[..w]) && Valid(s[w..]))
  }

  /** Some UTF8-char is a prefix of `t`. */
  predicate StartsWithChar(t: seq<byte>) {
    || (|t| >= 1 && IsChar(t[..1]))
    || (|t| >= 2 && IsChar(t[..2]))
    || (|t| >= 3 && IsChar(t[..3]))
    || (|t| >= 4 && IsChar(t[..4]))
  }

  /** `p` is the beginning (or the whole) of some UTF8-char. */
  ghost predicate IsCharPrefix(p: seq<byte>) {
    exists c :: IsChar(c) && |p| <= |c| && c[..|p|] == p
  }

  /**
   * The ill-formed input `t` starts with a maximal subpart of length `n`: the longest
   * prefix of `t` that begins some UTF8-char, or a single byte if none does.
   */
  ghost predicate MaximalSubpart(t: seq<byte>, n: nat) {
    && 1 <= n <= |t|
    && (n == 1 || IsCharPrefix(t[..n]))
    && (n < |t| ==> !IsCharPrefix(t[..n + 1]))
  }

  /** The table `UTF8_CHAR_WIDTH`: the length announced by a leading byte, 0 if none. */
  function Width(b: byte): nat {
    if b < 0x80 then 1
    else if 0xC2 <= b <= 0xDF then 2
    else if 0xE0 <= b <= 0xEF then 3
    else if 0xF0 <= b <= 0xF4 then 4
    else 0
  }

  /** The range the validator allows for the byte after a multi-byte leading byte. */
  predicate SecondOk(lead: byte, b: byte) {
    if lead == 0xE0 then 0xA0 <= b <= 0xBF
    else if lead == 0xED then 0x80 <= b <= 0x9F
    else if lead == 0xF0 then 0x90 <= b <= 0xBF
    else if lead == 0xF4 then 0x80 <= b <= 0x8F
    else Tail(b)
  }

  /** What the validator finds at index `i`. */
  datatype Step = Char(width: nat) | Invalid(errorLen: nat) | Truncated

  function StepAt(s: seq<byte>, i: nat): (r: Step)
    requires i < |s|
    ensures r.Char? ==> r.width == Width(s[i]) && 1 <= r.width <= 4 && i + r.width <= |s|
    ensures r.Invalid? ==> 1 <= r.errorLen <= 3 && i + r.errorLen <= |s|
    ensures r.Truncated? ==> |s| - i <= 3
  {
    var w := Width(s[i]);
    if w == 1 then Char(1)
    else if w == 0 then Invalid(1)
    else if i + 1 >= |s| then Truncated
    else if !SecondOk(s[i], s[i + 1]) then Invalid(1)
    else if w == 2 then Char(2)
    else if i + 2 >= |s| then Truncated
    else if !Tail(s[i + 2]) then Invalid(2)
    else if w == 3 then Char(3)
    else if i + 3 >= |s| then Truncated
    else if !Tail(s[i + 3]) then Invalid(3)
    else Char(4)
  }

  /** The outcome of `std::str::from_utf8`. */
  datatype Utf8Result = WellFormed | Malformed(validUpTo: nat, errorLen: Option<nat>)

  /** Validates `s[i..]`; indices in the result are indices of `s`. */
  function Scan(s: seq<byte>, i: nat): (r: Utf8Result)
    requires i <= |s|
    ensures r.Malformed? ==> i <= r.validUpTo < |s|
    ensures r.Malformed? && r.errorLen.Some? ==>
              1 <= r.errorLen.value <= 3 && r.validUpTo + r.errorLen.value <= |s|
    decreases |s| - i
  {
    if i == |s| then WellFormed
    else
      match StepAt(s, i)
      case Char(w) => Scan(s, i + w)
      case Invalid(n) => Malformed(i, Some(n))
      case Truncated => Malformed(i, None)
  }

  /** `from_utf8` on a whole sequence. */
  function FromUtf8(s: seq<byte>): (r: Utf8Result)
    ensures r.Malformed? ==> r.validUpTo < |s|
    ensures r.Malformed? && r.errorLen.Some? ==>
              1 <= r.errorLen.value <= 3 && r.validUpTo + r.errorLen.value <= |s|
  {
    Scan(s, 0)
  }

  // ---------------------------------------------------------------------------
  // The validator against the grammar

  /** A character of width `k` starts at `i` exactly when the validator says so. */
  lemma StepAtChar(s: seq<byte>, i: nat, k: nat)
    requires i < |s| && 1 <= k <= 4 && i + k <= |s|
    ensures IsChar(s[i..i + k]) <==> StepAt(s, i) == Char(k)
  {
  }

  /** Where the validator does not find a character, no character starts there. */
  lemma StepAtNoChar(s: seq<byte>, i: nat)
    requires i < |s| && !StepAt(s, i).Char?
    ensures !StartsWithChar(s[i..])
  {
    var t := s[i..];
    forall k | 1 <= k <= 4 && k <= |t| ensures !IsChar(t[..k]) {
      assert t[..k] == s[i..i + k];
      StepAtChar(s, i, k);
    }
  }

  /** Completes a prefix the validator accepted so far into a whole character. */
  function Completion(p: seq<byte>): (c: seq<byte>)
    requires 1 <= |p| <= 3 && Width(p[0]) > |p|
    requires |p| >= 2 ==> SecondOk(p[0], p[1])
    requires |p| >= 3 ==> Tail(p[2])
    ensures IsChar(c) && |p| < |c| && c[..|p|] == p
  {
    var second: byte := if p[0] == 0xE0 then 0xA0 else if p[0] == 0xF0 then 0x90 else 0x80;
    var c :=
      if |p| == 1 then p + [second] + seq(Width(p[0]) - 2, _ => 0x80)
      else p + seq(Width(p[0]) - |p|, _ => 0x80);
    assert |c| == Width(p[0]);
    c
  }

  lemma CompletionIsPrefix(p: seq<byte>)
    requires 1 <= |p| <= 3 && Width(p[0]) > |p|
    requires |p| >= 2 ==> SecondOk(p[0], p[1])
    requires |p| >= 3 ==> Tail(p[2])
    ensures IsCharPrefix(p)
  {
    var c := Completion(p);
    assert IsChar(c) && |p| <= |c| && c[..|p|] == p;
  }

  /** A leading byte that announces no character begins nothing. */
  lemma BadLeadNoPrefix(q: seq<byte>)
    requires |q| >= 1 && Width(q[0]) == 0
    ensures !IsCharPrefix(q)
  {
    forall c | IsChar(c) && |q| <= |c| ensures c[..|q|] != q {
      assert Width(c[0]) != 0;
      assert c[..|q|][0] == c[0];
    }
  }

  /** A leading byte followed by a byte outside its second-byte range begins nothing. */
  lemma BadSecondNoPrefix(q: seq<byte>)
    requires |q| >= 2 && Width(q[0]) >= 2 && !SecondOk(q[0], q[1])
    ensures !IsCharPrefix(q)
  {
    forall c | IsChar(c) && |q| <= |c| ensures c[..|q|] != q {
      assert SecondOk(c[0], c[1]);
      assert c[..|q|][0] == c[0] && c[..|q|][1] == c[1];
    }
  }

  /** A non-continuation byte in third or fourth place ends every candidate. */
  lemma BadTailNoPrefix(q: seq<byte>, j: nat)
    requires 2 <= j < |q| && j < Width(q[0]) && !Tail(q[j])
    ensures !IsCharPrefix(q)
  {
    forall c | IsChar(c) && |q| <= |c| ensures c[..|q|] != q {
      assert Width(c[0]) == |c|;
      assert forall k :: 1 <= k < |c| ==> Tail(c[k]);
      assert c[..|q|][0] == c[0] && c[..|q|][j] == c[j];
    }
  }

  /** An error chunk found by the validator is a maximal subpart. */
  lemma StepAtInvalid(s: seq<byte>, i: nat)
    requires i < |s| && StepAt(s, i).Invalid?
    ensures MaximalSubpart(s[i..], StepAt(s, i).errorLen)
  {
    var t := s[i..];
    var n := StepAt(s, i).errorLen;
    var w := Width(s[i]);
    if w == 0 {
      if 1 < |t| {
        BadLeadNoPrefix(t[..2]);
      }
    } else if !SecondOk(s[i], s[i + 1]) {
      BadSecondNoPrefix(t[..2]);
    } else if n == 2 {
      CompletionIsPrefix(t[..2]);
      BadTailNoPrefix(t[..3], 2);
    } else {
      assert n == 3;
      CompletionIsPrefix(t[..3]);
      BadTailNoPrefix(t[..4], 3);
    }
  }

  /** A truncated tail is the beginning of a character that the input cuts off. */
  lemma StepAtTruncated(s: seq<byte>, i: nat)
    requires i < |s| && StepAt(s, i).Truncated?
    ensures IsCharPrefix(s[i..])
  {
    CompletionIsPrefix(s[i..]);
  }

  /** What the validator accepts is well-formed. */
  lemma {:induction false} ScanAccepts(s: seq<byte>, i: nat)
    requires i <= |s| && Scan(s, i) == WellFormed
    ensures Valid(s[i..])
    decreases |s| - i
  {
    if i < |s| {
      var w := StepAt(s, i).width;
      ScanAccepts(s, i + w);
      StepAtChar(s, i, w);
      var t := s[i..];
      assert t[..w] == s[i..i + w] && t[w..] == s[i + w..];
      ValidCons(t, w);
    }
  }

  lemma ScanWellFormed(s: seq<byte>, i: nat)
    requires i <= |s|
    ensures Scan(s, i) == WellFormed <==> Valid(s[i..])
  {
    if Valid(s[i..]) {
      assert s[i..|s|] == s[i..];
      ScanSkipValid(s, i, |s|);
    }
    if Scan(s, i) == WellFormed {
      ScanAccepts(s, i);
    }
  }

  /** `from_utf8` accepts exactly the well-formed sequences of RFC 3629. */
  lemma FromUtf8Valid(s: seq<byte>)
    ensures FromUtf8(s) == WellFormed <==> Valid(s)
  {
    ScanWellFormed(s, 0);
    assert s[0..] == s;
  }

  /**
   * What the validator reports at `v` is right: no character starts there, and the
   * chunk is a maximal subpart (`Some`) or a cut-off beginning of a character that
   * reaches the end of the input (`None`).
   */
  ghost predicate ErrorAt(s: seq<byte>, v: nat, errorLen: Option<nat>)
    requires v <= |s|
  {
    && !StartsWithChar(s[v..])
    && (errorLen.Some? ==> MaximalSubpart(s[v..], errorLen.value))
    && (errorLen.None? ==> IsCharPrefix(s[v..]) && |s| - v <= 3)
  }

  /** The error a validator step reports. */
  function ErrorOf(step: Step): Option<nat> {
    if step.Invalid? then Some(step.errorLen) else None
  }

  lemma StepAtError(s: seq<byte>, i: nat)
    requires i < |s| && !StepAt(s, i).Char?
    ensures ErrorAt(s, i, ErrorOf(StepAt(s, i)))
  {
    StepAtNoChar(s, i);
    if StepAt(s, i).Invalid? {
      StepAtInvalid(s, i);
    } else {
      StepAtTruncated(s, i);
    }
  }

  /** An error is reported where the validator first fails to find a character, after a well-formed stretch. */
  lemma {:induction false} ScanMalformed(s: seq<byte>, i: nat)
    requires i <= |s| && Scan(s, i).Malformed?
    ensures Valid(s[i..Scan(s, i).validUpTo])
    ensures !StepAt(s, Scan(s, i).validUpTo).Char?
    ensures Scan(s, i).errorLen == ErrorOf(StepAt(s, Scan(s, i).validUpTo))
    decreases |s| - i
  {
    var v := Scan(s, i).validUpTo;
    var step := StepAt(s, i);
    if step.Char? {
      var w := step.width;
      ScanMalformed(s, i + w);
      StepAtChar(s, i, w);
      var u := s[i..v];
      assert u[..w] == s[i..i + w] && u[w..] == s[i + w..v];
      ValidCons(u, w);
    } else {
      assert s[i..v] == [];
    }
  }

  /**
   * On an error, everything before `valid_up_to` is well-formed, and no character
   * starts at `valid_up_to`, where the chunk is a maximal subpart or a cut-off
   * beginning of a character at the end of the input.
   */
  lemma FromUtf8Malformed(s: seq<byte>)
    requires FromUtf8(s).Malformed?
    ensures Valid(s[..FromUtf8(s).validUpTo])
    ensures ErrorAt(s, FromUtf8(s).validUpTo, FromUtf8(s).errorLen)
  {
    ScanMalformed(s, 0);
    StepAtError(s, FromUtf8(s).validUpTo);
    assert s[0..FromUtf8(s).validUpTo] == s[..FromUtf8(s).validUpTo];
  }


  /** The validator steps over a well-formed stretch character by character. */
  lemma {:induction false} ScanSkipValid(s: seq<byte>, i: nat, j: nat)
    requires i <= j <= |s| && Valid(s[i..j])
    ensures Scan(s, i) == Scan(s, j)
    decreases j - i
  {
    if i < j {
      var u := s[i..j];
      var k := Width(u[0]);
      assert u[..k] == s[i..i + k] && u[k..] == s[i + k..j];
      StepAtChar(s, i, k);
      ScanSkipValid(s, i + k, j);
    }
  }

  /** The leading byte of a character announces its length. */
  lemma CharWidth(c: seq<byte>)
    requires IsChar(c)
    ensures |c| == Width(c[0])
  {
  }

  /** Nothing that begins where no character starts is well-formed. */
  lemma NoCharNotValid(t: seq<byte>, n: nat)
    requires 1 <= n <= |t| && !StartsWithChar(t)
    ensures !Valid(t[..n])
  {
    var x := t[..n];
    forall k | 1 <= k <= 4 && k <= |x| ensures !IsChar(x[..k]) {
      assert x[..k] == t[..k];
    }
  }

  // ---------------------------------------------------------------------------
  // Well-formed sequences compose

  /** A character followed by a well-formed sequence is well-formed. */
  lemma ValidCons(s: seq<byte>, k: nat)
    requires 1 <= k <= 4 && k <= |s| && IsChar(s[..k]) && Valid(s[k..])
    ensures Valid(s)
  {
    CharWidth(s[..k]);
  }

  lemma {:induction false} ValidConcat(a: seq<byte>, b: seq<byte>)
    requires Valid(a) && Valid(b)
    ensures Valid(a + b)
    decreases |a|
  {
    if a != [] {
      var k := Width(a[0]);
      ValidConcat(a[k..], b);
      var c := a + b;
      assert c[0] == a[0];
      assert c[..k] == a[..k];
      assert c[k..] == a[k..] + b;
    } else {
      assert a + b == b;
    }
  }

  lemma CharValid(c: seq<byte>)
    requires IsChar(c)
    ensures Valid(c)
  {
    assert c[..|c|] == c && c[|c|..] == [];
  }

  /** Bytes below 0x80 (ASCII) are well-formed on their own. */
  lemma {:induction false} AsciiValid(s: seq<byte>)
    requires forall i :: 0 <= i < |s| ==> s[i] < 0x80
    ensures Valid(s)
  {
    if s != [] {
      AsciiValid(s[1..]);
      assert IsChar(s[..1]);
    }
  }
}
