/**
 * The bounded string builder of string_builder.c/.h: a caller-sized character buffer, a
 * cursor into it and the number of characters left. Appends are truncated so that the
 * terminating NUL always fits.
 *
 * The C pointer `ptr` becomes its offset from `buf`; a NUL-terminated C string becomes a
 * sequence of characters that contains a NUL.
 */
module StringBuilders {
  import opened FileBufTypes

  const NUL: char := '\0'

  /**
   * How many characters `string_builder_append_string` copies out of `s` when it may copy at
   * most `limit`: up to the first NUL, or `limit` if that comes first.
   */
  function CopyLength(s: seq<char>, limit: nat): (n: nat)
    requires NUL in s
    ensures n <= limit && n < |s|
    ensures forall k | 0 <= k < n :: s[k] != NUL
    ensures n < limit ==> s[n] == NUL
  {
    if limit == 0 || s[0] == NUL then 0 else 1 + CopyLength(s[1..], limit - 1)
  }

  /** The characters before the first NUL of `s`: the C string `s` spells. */
  function CString(s: seq<char>): (r: seq<char>)
    requires NUL in s
    ensures |r| < |s| && r == s[..|r|] && s[|r|] == NUL && NUL !in r
  {
    if s[0] == NUL then [] else [s[0]] + CString(s[1..])
  }

  /** What is copied is the C string `s` spells, cut to `limit` characters. */
  lemma {:induction false} CopiesCString(s: seq<char>, limit: nat)
    requires NUL in s
    ensures CopyLength(s, limit) == if |CString(s)| < limit then |CString(s)| else limit
  {
    if limit != 0 && s[0] != NUL {
      CopiesCString(s[1..], limit - 1);
    }
  }

  /** A buffer after `s` and then a NUL have been written into it at offset `at`. */
  function Terminated(b: seq<char>, at: nat, s: seq<char>): (r: seq<char>)
    requires at + |s| < |b|
    ensures |r| == |b| && r[..at] == b[..at] && r[at..at + |s|] == s && r[at + |s|] == NUL
    ensures r[at + |s| + 1..] == b[at + |s| + 1..]
  {
    b[..at] + s + [NUL] + b[at + |s| + 1..]
  }

  /** The decimal digit `d` as a character. */
  function Digit(d: nat): (c: char)
    requires d < 10
    ensures '0' <= c <= '9' && c as int - '0' as int == d
  {
    ('0' as int + d) as char
  }

  predicate IsDigits(s: seq<char>) {
    forall k | 0 <= k < |s| :: '0' <= s[k] <= '9'
  }

  /** The number a string of decimal digits stands for. */
  function Value(s: seq<char>): nat
    requires IsDigits(s)
  {
    if s == [] then 0 else 10 * Value(s[..|s| - 1]) + (s[|s| - 1] as int - '0' as int)
  }

  /**
   * `snprintf`'s `%u` conversion (ISO C 7.21.6.1): the decimal digits of `n`, with no
   * leading zero except for zero itself.
   */
  function Decimal(n: nat): (r: seq<char>)
    ensures |r| > 0 && IsDigits(r) && NUL !in r
    ensures r[0] == '0' ==> n == 0
  {
    if n < 10 then [Digit(n)] else Decimal(n / 10) + [Digit(n % 10)]
  }

  /** Reading the digits back gives the number. */
  lemma {:induction false} DecimalValue(n: nat)
    ensures Value(Decimal(n)) == n
  {
    if n >= 10 {
      DecimalValue(n / 10);
      assert Decimal(n)[..|Decimal(n)| - 1] == Decimal(n / 10);
    }
  }

  /** `Decimal` is the only spelling without leading zeros: it inverts `Value`. */
  lemma {:induction false} ValueDecimal(s: seq<char>)
    requires |s| > 0 && IsDigits(s) && (s[0] == '0' ==> |s| == 1)
    ensures Decimal(Value(s)) == s
    decreases |s|
  {
    var init := s[..|s| - 1];
    if |s| > 1 {
      assert IsDigits(init) && init[0] == s[0];
      ValueDecimal(init);
      LeadingDigitPositive(init);
      assert Value(s) / 10 == Value(init) && Value(s) % 10 == s[|s| - 1] as int - '0' as int;
    }
  }

  /** A digit string of two or more digits that does not start with zero is at least 10. */
  lemma {:induction false} LeadingDigitPositive(s: seq<char>)
    requires |s| > 0 && IsDigits(s) && s[0] != '0'
    ensures Value(s) > 0
    decreases |s|
  {
    if |s| > 1 {
      assert s[..|s| - 1][0] == s[0];
      LeadingDigitPositive(s[..|s| - 1]);
    }
  }

  /** 10^k. */
  function Pow10(k: nat): (p: nat)
    ensures p >= 1
  {
    if k == 0 then 1 else 10 * Pow10(k - 1)
  }

  /** Below 10^k a number has at most k digits. */
  lemma {:induction false} DecimalLength(n: nat, k: nat)
    requires 0 < k && n < Pow10(k)
    ensures |Decimal(n)| <= k
  {
    if n >= 10 {
      DecimalLength(n / 10, k - 1);
    }
  }

  /**
   * A `uint32_t` has at most 10 digits, so the 11-character buffer of
   * `string_builder_append_uint32` holds every spelling and its NUL: `snprintf` never
   * truncates.
   */
  lemma Uint32Fits(n: u32)
    ensures |Decimal(n)| + 1 <= 11
  {
    assert Pow10(10) == 10000000000;
    DecimalLength(n, 10);
  }

  /** `struct StringBuilder` (string_builder.h:14-19). */
  class StringBuilder {
    /** The character buffer, and the number of its characters the builder may use; both set by the caller. */
    const buf: array<char>
    const size: u32
    /** `ptr - buf`. */
    var ptr: nat
    var remaining: u32

    /**
     * The state `string_builder_reset` establishes and every append keeps: the cursor and the
     * space left add up to the size, which the buffer provides.
     */
    ghost predicate Valid()
      reads this
    {
      size <= buf.Length && ptr + remaining == size
    }

    /** A builder over the caller's `buf` and `size`, its cursor fields still uninitialised (`ptr0`, `remaining0`). */
    constructor (buf: array<char>, size: u32, ptr0: nat, remaining0: u32)
      ensures this.buf == buf && this.size == size && ptr == ptr0 && remaining == remaining0
    {
      this.buf := buf;
      this.size := size;
      ptr := ptr0;
      remaining := remaining0;
    }

    /** `string_builder_reset` (string_builder.c:10-13). */
    method Reset()
      requires size <= buf.Length
      modifies this
      ensures Valid() && ptr == 0 && remaining == size
    {
      ptr := 0;
      remaining := size;
    }

    /**
     * `string_builder_append_string` (string_builder.c:23-34): nothing happens when no space
     * is left; otherwise at most `remaining - 1` characters of the C string are copied to the
     * cursor, a NUL follows them, and the cursor moves past the copied characters.
     */
    method AppendString(append: seq<char>)
      requires Valid() && NUL in append
      modifies this, buf
      ensures Valid()
      ensures old(remaining) == 0 ==> ptr == old(ptr) && remaining == 0 && buf[..] == old(buf[..])
      ensures old(remaining) > 0 ==>
        var n := CopyLength(append, old(remaining) - 1);
        && ptr == old(ptr) + n && remaining == old(remaining) - n && remaining >= 1
        && buf[..] == Terminated(old(buf[..]), old(ptr), append[..n])
    {
      if remaining == 0 {
        return;
      }
      var limit := remaining - 1;
      ghost var n := CopyLength(append, limit);
      var i: u32 := 0;
      while i < limit && append[i] != NUL
        modifies buf
        invariant i <= n
        invariant forall k | 0 <= k < buf.Length :: buf[k] == if ptr <= k < ptr + i then append[k - ptr] else old(buf[k])
      {
        buf[ptr + i] := append[i];
        i := i + 1;
      }
      buf[ptr + i] := NUL;
      assert buf[..] == Terminated(old(buf[..]), old(ptr), append[..n]);
      remaining := remaining - i;
      ptr := ptr + i;
    }

    /**
     * `string_builder_append_uint32` (string_builder.c:37-44): the decimal spelling of the
     * value, appended like a string.
     */
    method AppendUint32(append: u32)
      requires Valid()
      modifies this, buf
      ensures Valid()
      ensures old(remaining) == 0 ==> ptr == old(ptr) && remaining == 0 && buf[..] == old(buf[..])
      ensures old(remaining) > 0 ==>
        var digits := Decimal(append);
        var n := if |digits| < old(remaining) - 1 then |digits| else old(remaining) - 1;
        && ptr == old(ptr) + n && remaining == old(remaining) - n && remaining >= 1
        && buf[..] == Terminated(old(buf[..]), old(ptr), digits[..n])
    {
      if remaining == 0 {
        return;
      }
      Uint32Fits(append);
      var tmp := Decimal(append) + [NUL];
      assert CString(tmp) == Decimal(append) by {
        CStringOfTerminated(Decimal(append));
      }
      CopiesCString(tmp, remaining - 1);
      ghost var n := CopyLength(tmp, remaining - 1);
      assert tmp[..n] == Decimal(append)[..n];
      AppendString(tmp);
    }
  }

  /** A string without NUL, terminated, spells itself. */
  lemma {:induction false} CStringOfTerminated(s: seq<char>)
    requires NUL !in s
    ensures CString(s + [NUL]) == s
    decreases |s|
  {
    if s != [] {
      assert (s + [NUL])[1..] == s[1..] + [NUL];
      CStringOfTerminated(s[1..]);
    }
  }
}
