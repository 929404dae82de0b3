/** The framing checks of the length-prefixed and fixed-length codecs. */
module Codecs {
  import opened Common

  function Pow10(n: nat): (r: nat)
    ensures r >= 1
  {
    if n == 0 then 1 else 10 * Pow10(n - 1)
  }

  const DIGITS := "0123456789"

  predicate IsDigit(c: char) { '0' <= c <= '9' }

  predicate IsSpace(c: char) { c in {' ', '\t', '\n', '\U{000B}', '\U{000C}', '\r'} }

  /** The number n, zero-padded to w decimal digits: what a sender puts in front of n bytes. */
  function Prefix(n: nat, w: nat): (s: string)
    ensures |s| == w && forall i :: 0 <= i < w ==> IsDigit(s[i])
  {
    if w == 0 then "" else Prefix(n / 10, w - 1) + [DIGITS[n % 10]]
  }

  /** How many digits s has from position i on. */
  function DigitRun(s: string, i: nat): (e: nat)
    ensures i <= |s| ==> i <= e <= |s| && (e < |s| ==> !IsDigit(s[e])) && forall k :: i <= k < e ==> IsDigit(s[k])
    decreases |s| - i
  {
    if i < |s| && IsDigit(s[i]) then DigitRun(s, i + 1) else i
  }

  /** The value of the digits of s. */
  function Value(s: string): int
    requires forall i :: 0 <= i < |s| ==> IsDigit(s[i])
  {
    if s == "" then 0 else 10 * Value(s[..|s| - 1]) + (s[|s| - 1] as int - '0' as int)
  }

  function SpaceRun(s: string, i: nat): (e: nat)
    ensures i <= |s| ==> i <= e <= |s|
    decreases |s| - i
  {
    if i < |s| && IsSpace(s[i]) then SpaceRun(s, i + 1) else i
  }

  /**
   std::stoull in base 10: leading white space, an optional sign, digits up to the first other
   byte; a minus sign negates modulo 2^64.  None is an exception: no digits, or out of range.
   */
  function Stoull(s: string): Option<nat> {
    var i := SpaceRun(s, 0);
    var signed := i < |s| && s[i] in {'+', '-'};
    var start := if signed then i + 1 else i;
    var end := DigitRun(s, start);
    if end == start then None
    else
      var v := Value(s[start..end]);
      if !(0 <= v < TWO64) then None
      else if signed && s[i] == '-' then Some((TWO64 - v) % TWO64) else Some(v)
  }

  /** length_data_default_callback on the readable bytes: after an exception data_len is still 0. */
  predicate LengthDataCheck(readable: string, lengthSize: nat) {
    |readable| >= lengthSize &&
    var parsed := Stoull(readable[..lengthSize]);
    |readable| - lengthSize >= if parsed.Some? then parsed.value else 0
  }

  /** fixed_length_default_callback. */
  predicate FixedLengthCheck(readable: string, requiredBytes: nat) {
    |readable| > requiredBytes
  }

  /** Printing and parsing a length are inverse. */
  lemma {:induction false} PrefixValue(n: nat, w: nat)
    requires n < Pow10(w)
    ensures Value(Prefix(n, w)) == n
    decreases w
  {
    if w > 0 {
      PrefixValue(n / 10, w - 1);
      var s := Prefix(n, w);
      assert s[..w - 1] == Prefix(n / 10, w - 1);
      assert DIGITS[n % 10] as int - '0' as int == n % 10;
    }
  }

  lemma PrefixParses(n: nat, w: nat)
    requires n < Pow10(w) && n < TWO64 && w >= 1
    ensures Stoull(Prefix(n, w)) == Some(n)
  {
    var s := Prefix(n, w);
    assert IsDigit(s[0]);
    assert DigitRun(s, 0) == w;
    assert s[0..w] == s;
    PrefixValue(n, w);
  }

  /**
   The length codec frames exactly: however much of a message (and of whatever follows it) is in
   the buffer, the check is true if and only if the whole message is.
   */
  lemma LengthDataFraming(payload: string, w: nat, later: string, k: nat)
    requires w >= 1 && |payload| < Pow10(w) && |payload| < TWO64
    requires k <= |Prefix(|payload|, w) + payload + later|
    ensures LengthDataCheck((Prefix(|payload|, w) + payload + later)[..k], w) <==> k >= w + |payload|
  {
    var readable := (Prefix(|payload|, w) + payload + later)[..k];
    if k >= w {
      assert readable[..w] == Prefix(|payload|, w);
      PrefixParses(|payload|, w);
    }
  }

  predicate AllDigits(s: string) {
    forall i :: 0 <= i < |s| ==> IsDigit(s[i])
  }

  /** s is white space, at most one sign, the digits, and then no further digit. */
  predicate ReadsAs(s: string, lead: string, sign: string, digits: string) {
    && lead + sign + digits <= s
    && (forall i :: 0 <= i < |lead| ==> IsSpace(lead[i]))
    && (sign == "" || sign == "+" || sign == "-")
    && digits != "" && AllDigits(digits)
    && (|lead + sign + digits| < |s| ==> !IsDigit(s[|lead + sign + digits|]))
  }

  /** s begins with a number that fits 64 bits. */
  ghost predicate Numeric(s: string) {
    exists lead, sign, digits :: ReadsAs(s, lead, sign, digits) && Value(digits) < TWO64
  }

  lemma {:induction false} ValueNotNegative(s: string)
    requires AllDigits(s)
    ensures Value(s) >= 0
  {
    if s != "" {
      ValueNotNegative(s[..|s| - 1]);
    }
  }

  lemma {:induction false} SpacesSkipped(s: string, i: nat, e: nat)
    requires i <= e <= |s| && (forall k :: i <= k < e ==> IsSpace(s[k])) && (e < |s| ==> !IsSpace(s[e]))
    ensures SpaceRun(s, i) == e
    decreases e - i
  {
    if i < e {
      SpacesSkipped(s, i + 1, e);
    }
  }

  lemma {:induction false} SpacesFirst(s: string, i: nat)
    requires i <= |s|
    ensures forall k :: i <= k < SpaceRun(s, i) ==> IsSpace(s[k])
    decreases |s| - i
  {
    if i < |s| && IsSpace(s[i]) {
      SpacesFirst(s, i + 1);
    }
  }

  /** What stoull reads off s, if it reads anything. */
  lemma StoullReads(s: string)
    requires Stoull(s).Some?
    ensures Numeric(s)
  {
    var i := SpaceRun(s, 0);
    SpacesFirst(s, 0);
    var start := if i < |s| && s[i] in {'+', '-'} then i + 1 else i;
    SlicesRead(s, i, start, DigitRun(s, start));
  }

  lemma ThreeSlices(s: string, i: nat, start: nat, end: nat)
    requires i <= start <= end <= |s|
    ensures s[..i] + s[i..start] + s[start..end] == s[..end]
  {
    assert s[..i] + s[i..start] == s[..start];
    assert s[..start] + s[start..end] == s[..end];
  }

  lemma SlicesRead(s: string, i: nat, start: nat, end: nat)
    requires i <= start < end <= |s| && (start == i || (start == i + 1 && s[i] in {'+', '-'}))
    requires forall k :: 0 <= k < i ==> IsSpace(s[k])
    requires (forall k :: start <= k < end ==> IsDigit(s[k])) && (end < |s| ==> !IsDigit(s[end]))
    ensures ReadsAs(s, s[..i], s[i..start], s[start..end])
  {
    hide IsSpace, IsDigit;
    ThreeSlices(s, i, start, end);
    assert start == i + 1 ==> s[i..start] == [s[i]];
  }

  lemma ReadsIndices(s: string, lead: string, sign: string, digits: string)
    requires ReadsAs(s, lead, sign, digits)
    ensures var i, start, end := |lead|, |lead| + |sign|, |lead| + |sign| + |digits|;
            && i <= start <= end <= |s| && (forall k :: 0 <= k < i ==> IsSpace(s[k]))
            && s[i..start] == sign && s[start..end] == digits && (forall k :: start <= k < end ==> IsDigit(s[k]))
            && (end < |s| ==> !IsDigit(s[end]))
  {
    hide IsSpace, IsDigit;
    ThreeParts(s, lead, sign, digits);
    var start := |lead| + |sign|;
    forall k | 0 <= k < |lead| ensures IsSpace(s[k]) {
      assert s[..|lead|][k] == lead[k];
    }
    forall k | start <= k < start + |digits| ensures IsDigit(s[k]) {
      assert s[start..start + |digits|][k - start] == digits[k - start];
    }
  }

  lemma ThreeParts(s: string, a: string, b: string, c: string)
    requires a + b + c <= s
    ensures |a + b + c| == |a| + |b| + |c| <= |s|
    ensures s[..|a|] == a && s[|a|..|a| + |b|] == b && s[|a| + |b|..|a| + |b| + |c|] == c
  {
    var front := a + b + c;
    assert s[..|front|] == front;
    assert front[..|a|] == a && front[|a|..|a| + |b|] == b && front[|a| + |b|..] == c;
    assert s[..|a|] == front[..|a|] && s[|a|..|a| + |b|] == front[|a|..|a| + |b|];
    assert s[|a| + |b|..|front|] == front[|a| + |b|..];
  }

  lemma {:induction false} DigitsRead(s: string, i: nat, e: nat)
    requires i <= e <= |s| && (forall k :: i <= k < e ==> IsDigit(s[k])) && (e < |s| ==> !IsDigit(s[e]))
    ensures DigitRun(s, i) == e
    decreases e - i
  {
    if i < e {
      DigitsRead(s, i + 1, e);
    }
  }

  lemma NumericIsRead(s: string, lead: string, sign: string, digits: string)
    requires ReadsAs(s, lead, sign, digits) && Value(digits) < TWO64
    ensures Stoull(s) == Some(if sign == "-" then (TWO64 - Value(digits)) % TWO64 else Value(digits))
  {
    hide ReadsAs, SpaceRun, DigitRun, Value;
    var i, start, end := |lead|, |lead| + |sign|, |lead| + |sign| + |digits|;
    ReadsIndices(s, lead, sign, digits);
    SignOrDigit(s, lead, sign, digits);
    SpacesSkipped(s, 0, i);
    DigitsRead(s, start, end);
    ValueNotNegative(digits);
  }

  lemma SignOrDigit(s: string, lead: string, sign: string, digits: string)
    requires ReadsAs(s, lead, sign, digits)
    ensures |lead| < |s| && !IsSpace(s[|lead|]) && |digits| > 0 && AllDigits(digits) && |sign| <= 1
    ensures s[|lead|] in {'+', '-'} <==> |sign| == 1
    ensures s[|lead|] == '-' <==> sign == "-"
  {
    ReadsIndices(s, lead, sign, digits);
    if sign != "" {
      assert s[|lead|..|lead| + |sign|][0] == sign[0];
    }
  }

  /** stoull succeeds exactly on text that begins with a number of 64 bits. */
  lemma StoullExactlyWhen(s: string)
    ensures Stoull(s).Some? <==> Numeric(s)
  {
    hide Stoull;
    if Stoull(s).Some? {
      StoullReads(s);
    }
    if Numeric(s) {
      var lead, sign, digits :| ReadsAs(s, lead, sign, digits) && Value(digits) < TWO64;
      NumericIsRead(s, lead, sign, digits);
    }
  }

  /** Any other length field counts as zero: the check is true as soon as the field is there. */
  lemma MalformedLengthIsZero(readable: string, w: nat)
    requires |readable| >= w && !Numeric(readable[..w])
    ensures Stoull(readable[..w]).None? && LengthDataCheck(readable, w)
  {
    hide Numeric;
    StoullExactlyWhen(readable[..w]);
  }

  /** And a number counts for what it says; a minus sign makes it 2^64 less that, which no buffer holds. */
  lemma NumericLengthExactly(readable: string, w: nat, lead: string, sign: string, digits: string)
    requires |readable| >= w && ReadsAs(readable[..w], lead, sign, digits) && Value(digits) < TWO64
    ensures LengthDataCheck(readable, w) <==>
              |readable| >= w + (if sign == "-" && Value(digits) > 0 then TWO64 - Value(digits) else Value(digits))
  {
    hide Stoull, ReadsAs, Value;
    ValueOf(readable[..w], lead, sign, digits);
    NumericIsRead(readable[..w], lead, sign, digits);
  }

  lemma ValueOf(s: string, lead: string, sign: string, digits: string)
    requires ReadsAs(s, lead, sign, digits)
    ensures AllDigits(digits) && Value(digits) >= 0
  {
    ValueNotNegative(digits);
  }

  lemma NumberStart(s: string, lead: string, sign: string, digits: string)
    requires ReadsAs(s, lead, sign, digits)
    ensures s != "" && (IsSpace(s[0]) || s[0] in {'+', '-'} || IsDigit(s[0]))
  {
    ReadsIndices(s, lead, sign, digits);
    if lead == "" {
      SignOrDigit(s, lead, sign, digits);
    }
  }

  /** A field of letters, for one: it passes with nothing but itself, and with anything behind it. */
  lemma LettersPass(later: string)
    ensures !Numeric("abcd") && LengthDataCheck("abcd" + later, 4)
  {
    forall lead, sign, digits | ReadsAs("abcd", lead, sign, digits) ensures "abcd"[0] != 'a' {
      NumberStart("abcd", lead, sign, digits);
    }
    assert ("abcd" + later)[..4] == "abcd";
    MalformedLengthIsZero("abcd" + later, 4);
  }

  /** The fixed-length check asks for one byte more than the documented "size readable bytes". */
  lemma FixedLengthWantsOneMore(readable: string, size: nat)
    ensures (FixedLengthCheck(readable, size) <==> |readable| >= size) <==> |readable| != size
  {
  }
}
