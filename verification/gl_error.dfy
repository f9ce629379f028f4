/**
 * The check made after the render loop ends: a pending GL error aborts the
 * program with the error's name, or with its decimal value when the code is not
 * one of the seven the program knows.
 */
module GlErrors {
  import opened Wrappers
  import opened Native

  const GL_NO_ERROR: uint32 := 0
  const GL_INVALID_ENUM: uint32 := 0x0500
  const GL_INVALID_VALUE: uint32 := 0x0501
  const GL_INVALID_OPERATION: uint32 := 0x0502
  const GL_STACK_OVERFLOW: uint32 := 0x0503
  const GL_STACK_UNDERFLOW: uint32 := 0x0504
  const GL_OUT_OF_MEMORY: uint32 := 0x0505
  const GL_INVALID_FRAMEBUFFER_OPERATION: uint32 := 0x0506

  const UnknownPrefix: string := "Unknown OpenGL error: "

  function DigitChar(d: nat): char
    requires d < 10
  {
    (('0' as int) + d) as char
  }

  predicate IsDigit(ch: char)
  {
    '0' <= ch <= '9'
  }

  /** `std::to_string` of an unsigned value: its decimal digits, without leading zeros. */
  function Decimal(n: nat): (s: string)
    ensures |s| > 0
    ensures forall i | 0 <= i < |s| :: IsDigit(s[i])
    ensures |s| > 1 ==> s[0] != '0'
    decreases n
  {
    if n < 10 then [DigitChar(n)] else Decimal(n / 10) + [DigitChar(n % 10)]
  }

  function DigitValue(ch: char): nat
    requires IsDigit(ch)
  {
    (ch as int) - ('0' as int)
  }

  /** The value a string of decimal digits denotes. */
  function DecimalValue(s: string): nat
    requires forall i | 0 <= i < |s| :: IsDigit(s[i])
    decreases |s|
  {
    if s == [] then 0 else DecimalValue(s[..|s| - 1]) * 10 + DigitValue(s[|s| - 1])
  }

  /** The decimal text of n reads back as n. */
  lemma {:induction false} DecimalRoundTrip(n: nat)
    ensures DecimalValue(Decimal(n)) == n
    decreases n
  {
    var s := Decimal(n);
    if n >= 10 {
      DecimalRoundTrip(n / 10);
      assert s[..|s| - 1] == Decimal(n / 10);
    }
  }

  /** The name of one of the seven known error codes. */
  function KnownName(code: uint32): Option<string>
  {
    if code == GL_INVALID_ENUM then Some("GL_INVALID_ENUM")
    else if code == GL_INVALID_VALUE then Some("GL_INVALID_VALUE")
    else if code == GL_INVALID_OPERATION then Some("GL_INVALID_OPERATION")
    else if code == GL_INVALID_FRAMEBUFFER_OPERATION then Some("GL_INVALID_FRAMEBUFFER_OPERATION")
    else if code == GL_OUT_OF_MEMORY then Some("GL_OUT_OF_MEMORY")
    else if code == GL_STACK_UNDERFLOW then Some("GL_STACK_UNDERFLOW")
    else if code == GL_STACK_OVERFLOW then Some("GL_STACK_OVERFLOW")
    else None
  }

  /** The message the program aborts with for the error code `glGetError` returned,
      or None when there is no error. */
  function ErrorMessage(code: uint32): (r: Option<string>)
    ensures r.None? <==> code == GL_NO_ERROR
    ensures KnownName(code).Some? ==> r == KnownName(code)
    ensures code != GL_NO_ERROR && KnownName(code).None? ==>
      r.Some? && |r.value| > |UnknownPrefix| && r.value[..|UnknownPrefix|] == UnknownPrefix
  {
    if code == GL_NO_ERROR then None
    else if KnownName(code).Some? then KnownName(code)
    else Some(UnknownPrefix + Decimal(code) + ".")
  }

  /** The seven known codes have seven different names. */
  lemma KnownNamesDistinct(a: uint32, b: uint32)
    requires KnownName(a).Some? && KnownName(a) == KnownName(b)
    ensures a == b
  {
  }

  /** Two unknown codes with the same message are the same code. */
  lemma UnknownMessagesDistinct(a: nat, b: nat)
    requires UnknownPrefix + Decimal(a) + "." == UnknownPrefix + Decimal(b) + "."
    ensures a == b
  {
    var da, db := Decimal(a), Decimal(b);
    var ma, mb := UnknownPrefix + da + ".", UnknownPrefix + db + ".";
    assert |da| == |db|;
    assert da == ma[|UnknownPrefix|..|UnknownPrefix| + |da|];
    assert db == mb[|UnknownPrefix|..|UnknownPrefix| + |db|];
    DecimalRoundTrip(a);
    DecimalRoundTrip(b);
  }

  /** Known names start with "GL_", the other messages with "Unknown". */
  lemma MessageInitial(c: uint32)
    ensures c != GL_NO_ERROR ==>
      && ErrorMessage(c).Some? && |ErrorMessage(c).value| > 0
      && ErrorMessage(c).value[0] == (if KnownName(c).Some? then 'G' else 'U')
  {
  }

  /** Distinct error codes abort with distinct messages, so the message identifies
      the code. */
  lemma ErrorMessageInjective(a: uint32, b: uint32)
    requires ErrorMessage(a) == ErrorMessage(b)
    ensures a == b
  {
    if a == GL_NO_ERROR || b == GL_NO_ERROR {
    } else if KnownName(a).Some? && KnownName(b).Some? {
      KnownNamesDistinct(a, b);
    } else if KnownName(a).None? && KnownName(b).None? {
      UnknownMessagesDistinct(a, b);
    } else {
      MessageInitial(a);
      MessageInitial(b);
    }
  }
}
