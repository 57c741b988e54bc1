/** The widths of the C integer types, the conversions between them, and strings in memory. */
module CTypes {
  const INT_MIN := -0x8000_0000
  const INT_MAX := 0x7fff_ffff
  const UINT_RANGE := 0x1_0000_0000
  const ULONG_RANGE := 0x1_0000_0000_0000_0000

  predicate IsInt(value: int) {
    INT_MIN <= value <= INT_MAX
  }

  /** The conversion of an int to unsigned int. */
  function ToUint(value: int): (v: nat)
    requires IsInt(value)
    ensures v < UINT_RANGE && (v == value || v - UINT_RANGE == value)
  {
    if value < 0 then value + UINT_RANGE else value
  }

  /** The conversion of an int to unsigned long, or to size_t. */
  function ToUlong(value: int): (v: nat)
    requires IsInt(value)
    ensures v < ULONG_RANGE && (v == value || v - ULONG_RANGE == value)
  {
    if value < 0 then value + ULONG_RANGE else value
  }

  /** The conversion of an unsigned long to int keeps the low 32 bits. */
  function ToInt(v: nat): (value: int)
    ensures IsInt(value) && (v - value) % UINT_RANGE == 0
  {
    (v + 0x8000_0000) % UINT_RANGE - 0x8000_0000
  }

  /** strlen: the length up to the first NUL. */
  function StrLen(s: string): (n: nat)
    ensures n <= |s| && (n == |s| <==> '\0' !in s)
  {
    if s == "" || s[0] == '\0' then 0 else 1 + StrLen(s[1..])
  }

  /** The C string at the start of a buffer. */
  function CString(buf: string): string {
    buf[..StrLen(buf)]
  }

  /** A buffer of zeros whose first bytes are overwritten by text. */
  function Buffered(text: string, size: nat): string
    requires |text| <= size
  {
    text + seq(size - |text|, _ => '\0')
  }

  /** A shorter text without NUL is the C string in the buffer. */
  lemma {:induction false} BufferedIsText(text: string, size: nat)
    requires |text| < size && '\0' !in text
    ensures CString(Buffered(text, size)) == text
  {
    StrLenAt(Buffered(text, size), |text|);
  }

  lemma {:induction false} StrLenAt(s: string, n: nat)
    requires n < |s| && s[n] == '\0' && '\0' !in s[..n]
    ensures StrLen(s) == n
  {
    if n > 0 {
      assert s[..n][0] == s[0] && s[..n][1..] == s[1..][..n - 1];
      StrLenAt(s[1..], n - 1);
    }
  }
}
