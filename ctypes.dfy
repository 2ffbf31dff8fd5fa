/** The parts of C's data representation the model depends on: bytes,
    NUL-terminated strings, and 32-bit `unsigned`/`int` arithmetic.
    The program is assumed to run on a platform where `unsigned` and `int`
    are 32 bits wide (two's complement) and `size_t` is 64 bits wide. */
module CTypes {

  /** One byte of a C `char` buffer. */
  type Byte = c: char | c as int < 256

  const NUL: Byte := 0 as char

  /** 2^32, the modulus of C `unsigned` arithmetic. */
  const U32_MOD: int := 0x1_0000_0000
  /** The largest `unsigned` value, which `0u - 1` wraps to. */
  const U32_MAX: int := 0xFFFF_FFFF

  /** A value of C type `unsigned`. */
  type U32 = x: int | 0 <= x < 0x1_0000_0000

  /** The result of an `unsigned` operation whose mathematical value is `x`. */
  function Wrap32(x: int): (r: U32)
    ensures 0 <= x < U32_MOD ==> r == x
    ensures -U32_MOD <= x < 0 ==> r == x + U32_MOD
    ensures U32_MOD <= x < 2 * U32_MOD ==> r == x - U32_MOD
  {
    x % U32_MOD
  }

  /** The conversion `(int) u` of an `unsigned` value to `int`. */
  function ToInt32(u: U32): (r: int)
    ensures -0x8000_0000 <= r < 0x8000_0000
    ensures r >= 0 <==> u < 0x8000_0000
    ensures Wrap32(r) == u
  {
    if u < 0x8000_0000 then u else u - U32_MOD
  }

  /** `strlen`: the number of bytes before the first NUL. A buffer that
      holds no NUL is measured to its end (C would read past it). */
  function StrLen(b: seq<Byte>): (n: nat)
    ensures n <= |b|
    ensures n < |b| ==> b[n] == NUL
    ensures forall i :: 0 <= i < n ==> b[i] != NUL
  {
    if |b| == 0 || b[0] == NUL then 0 else 1 + StrLen(b[1..])
  }

  /** The C string held by a buffer: its bytes up to the first NUL. */
  function CString(b: seq<Byte>): (s: seq<Byte>)
    ensures NUL !in s
    ensures s <= b
    ensures |s| < |b| ==> b[|s|] == NUL
  {
    b[..StrLen(b)]
  }

  /** A buffer of `n` zero bytes, as `calloc` returns it. */
  function Zeros(n: nat): (z: seq<Byte>)
    ensures |z| == n && forall i :: 0 <= i < n ==> z[i] == NUL
  {
    seq(n, _ => NUL)
  }

  /** A buffer that starts with a NUL-free string and a terminator holds
      exactly that string. */
  lemma {:induction false} CStringOfTerminated(t: seq<Byte>, rest: seq<Byte>)
    requires NUL !in t
    ensures CString(t + [NUL] + rest) == t
  {
    var b := t + [NUL] + rest;
    assert b[|t|] == NUL;
    assert forall i :: 0 <= i < |t| ==> b[i] == t[i];
    assert StrLen(b) == |t|;
  }

  /** A NUL-free buffer is its own C string. */
  lemma CStringOfNulFree(t: seq<Byte>)
    requires NUL !in t
    ensures CString(t) == t
  {
    assert forall i :: 0 <= i < |t| ==> t[i] != NUL;
  }

  /** A buffer whose bytes from `|t|` on are all NUL holds the same C string
      as its prefix `t`. */
  lemma CStringOfPrefixAndZeros(b: seq<Byte>, t: seq<Byte>)
    requires t <= b
    requires forall j :: |t| <= j < |b| ==> b[j] == NUL
    ensures CString(b) == CString(t)
  {
    var n := StrLen(t);
    if n < |t| {
      assert b[n] == t[n] == NUL;
      assert forall i :: 0 <= i < n ==> b[i] == t[i];
      assert StrLen(b) == n;
    } else if |t| < |b| {
      assert b[|t|] == NUL;
      assert forall i :: 0 <= i < |t| ==> b[i] == t[i];
      assert StrLen(b) == |t|;
    } else {
      assert b == t;
    }
  }

  /** A buffer that continues its prefix `t` with a NUL holds the same C
      string as `t`. */
  lemma CStringOfTerminatedPrefix(b: seq<Byte>, t: seq<Byte>)
    requires t <= b && |t| < |b| && b[|t|] == NUL
    ensures NUL in b
    ensures CString(b) == CString(t)
  {
    assert b[|t|] in b;
    var n := StrLen(t);
    assert forall i :: 0 <= i < n ==> b[i] == t[i];
    if n < |t| {
      assert b[n] == t[n];
    }
    assert StrLen(b) == n;
  }
}

/** Key codes as ncurses' `getch` returns them. */
module Keys {
  import opened CTypes

  const ENTER: int := 10
  const ESCAPE: int := 27
  const KEY_DOWN: int := 0x102
  const KEY_UP: int := 0x103
  const KEY_BACKSPACE: int := 0x107

  /** The byte stored by `buf[i] = key` (conversion of an `int` to `char`:
      its low eight bits). */
  function KeyByte(key: int): (b: Byte)
    ensures 0 <= key < 256 ==> b as int == key
  {
    (key % 256) as char
  }

  /** Function keys above 255 lose their high byte: `KEY_ENTER` (0x157)
      stores `W`, 0x10A (`KEY_F(2)`) stores a newline and 0x100 a NUL. */
  lemma FunctionKeyBytes()
    ensures KeyByte(0x157) == 'W' && KeyByte(0x10A) == '\n' && KeyByte(0x100) == NUL
  {
  }
}
