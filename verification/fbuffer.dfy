/**
 The growing buffer of fbuffer.h, and the conversion of integers to text in a
 buffer of 20 bytes.
 */
module FBuffers {
  import opened Bytes
  import opened Decimal

  function Power2(k: nat): (r: nat)
    ensures r > 0
  {
    if k == 0 then 1 else 2 * Power2(k - 1)
  }

  /** A capacity that doubling can reach. */
  ghost predicate IsDoubled(capa: int, initial: int) {
    exists k: nat :: capa == initial * Power2(k)
  }

  lemma {:induction false} DoubledNever(initial: int)
    ensures IsDoubled(initial, initial)
  {
    assert initial == initial * Power2(0);
  }

  lemma {:induction false} DoubledOnce(capa: int, initial: int)
    requires IsDoubled(capa, initial)
    ensures IsDoubled(2 * capa, initial)
  {
    var k: nat :| capa == initial * Power2(k);
    assert 2 * capa == initial * Power2(k + 1);
  }

  const INITIAL_LENGTH_DEFAULT: nat := 1024

  /** MEMCPY of `src` to position `at` of `dst`. */
  method CopyInto(dst: array<byte>, at: nat, src: bytes)
    requires at + |src| <= dst.Length
    modifies dst
    ensures dst[..at + |src|] == old(dst[..at]) + src
  {
    for i := 0 to |src|
      invariant dst[..at] == old(dst[..at])
      invariant forall j :: 0 <= j < i ==> dst[at + j] == src[j]
    {
      dst[at + i] := src[i];
    }
  }

  /** The growth loop of fbuffer_inc_capa. */
  method Doubled(capa: nat, len: nat, requested: nat, ghost initial: nat) returns (required: nat)
    requires capa > 0 && IsDoubled(capa, initial)
    ensures required >= capa && requested <= required - len && IsDoubled(required, initial)
    ensures required > capa ==> required / 2 - len < requested
    ensures requested <= capa - len ==> required == capa
  {
    required := capa;
    hide IsDoubled, Power2;
    while requested > required - len
      invariant required >= capa && IsDoubled(required, initial)
      invariant required > capa ==> required / 2 - len < requested && requested > capa - len
      decreases requested + len - required
    {
      DoubledOnce(required, initial);
      required := 2 * required;
    }
  }

  class FBuffer {
    var initialLength: nat
    var ptr: array?<byte>
    var len: nat
    var capa: nat

    ghost predicate Valid()
      reads this, ptr
    {
      && initialLength > 0 && len <= capa
      && (ptr == null ==> len == 0 && capa == 0)
      && (ptr != null ==> ptr.Length == capa > 0 && IsDoubled(capa, initialLength))
    }

    ghost function Contents(): bytes
      requires Valid()
      reads this, ptr
    {
      if ptr == null then [] else ptr[..len]
    }

    /** fbuffer_alloc */
    constructor (initial: nat)
      ensures Valid() && Contents() == [] && ptr == null
      ensures initialLength == if initial == 0 then INITIAL_LENGTH_DEFAULT else initial
    {
      initialLength := if initial == 0 then INITIAL_LENGTH_DEFAULT else initial;
      ptr := null;
      len := 0;
      capa := 0;
    }

    /** fbuffer_clear: the memory is kept. */
    method Clear()
      requires Valid()
      modifies this`len
      ensures Valid() && Contents() == []
    {
      len := 0;
    }

    /** fbuffer_inc_capa: room for `requested` more bytes. */
    method IncCapa(requested: nat)
      requires Valid()
      modifies this`ptr, this`capa
      ensures Valid() && Contents() == old(Contents()) && ptr != null
      ensures requested <= capa - len
      ensures ptr == old(ptr) || fresh(ptr)
      ensures old(ptr) != null && requested <= old(capa) - len ==> ptr == old(ptr)
    {
      hide IsDoubled, Power2;
      ghost var before := Contents();
      if ptr == null {
        ptr := new byte[initialLength];
        capa := initialLength;
        DoubledNever(initialLength);
      }
      var required := Doubled(capa, len, requested, initialLength);
      if required > capa {
        var grown := new byte[required];
        CopyInto(grown, 0, ptr[..len]);
        assert grown[..len] == ptr[..len];
        ptr := grown;
        capa := required;
      }
      assert ptr[..len] == before;
    }

    /** fbuffer_append */
    method Append(newstr: bytes)
      requires Valid()
      modifies this, ptr
      ensures Valid() && Contents() == old(Contents()) + newstr
      ensures initialLength == old(initialLength) && (ptr == old(ptr) || fresh(ptr))
    {
      if |newstr| > 0 {
        IncCapa(|newstr|);
        CopyInto(ptr, len, newstr);
        len := len + |newstr|;
      } else {
        assert Contents() + newstr == Contents();
      }
    }

    /** fbuffer_append_char */
    method AppendChar(newchr: byte)
      requires Valid()
      modifies this, ptr
      ensures Valid() && Contents() == old(Contents()) + [newchr]
      ensures initialLength == old(initialLength) && (ptr == old(ptr) || fresh(ptr))
    {
      IncCapa(1);
      ptr[len] := newchr;
      len := len + 1;
    }

    /** fbuffer_append_long */
    method AppendLong(number: int)
      requires Valid() && -FIXNUM_LIMIT <= number <= FIXNUM_LIMIT
      modifies this, ptr
      ensures Valid() && Contents() == old(Contents()) + Signed(number)
      ensures initialLength == old(initialLength) && (ptr == old(ptr) || fresh(ptr))
    {
      var buf := new byte[20];
      var n := LongToText(number, buf);
      Append(buf[..n]);
    }
  }

  /** freverse of the bytes from `start` to `end`, both included. */
  method ReverseInPlace(buf: array<byte>, start: nat, end: int)
    requires start <= end + 1 && end < buf.Length
    modifies buf
    ensures forall i :: start <= i <= end ==> buf[i] == old(buf[start + end - i])
    ensures forall i :: 0 <= i < buf.Length && !(start <= i <= end) ==> buf[i] == old(buf[i])
  {
    var lo, hi := start, end;
    while hi > lo
      invariant start <= lo && hi <= end && lo + hi == start + end && lo <= hi + 1
      invariant forall i :: start <= i < lo ==> buf[i] == old(buf[start + end - i])
      invariant forall i :: hi < i <= end ==> buf[i] == old(buf[start + end - i])
      invariant forall i :: 0 <= i < buf.Length && !(start <= i < lo) && !(hi < i <= end) ==> buf[i] == old(buf[i])
    {
      buf[hi], buf[lo] := buf[lo], buf[hi];
      hi := hi - 1;
      lo := lo + 1;
    }
  }

  /** Digits of `n`, least significant first, as the loop of fltoa writes them. */
  function Backwards(n: nat): (d: bytes)
    ensures d != []
  {
    [48 + n % 10] + if n < 10 then [] else Backwards(n / 10)
  }

  lemma {:induction false} BackwardsIs(n: nat, i: nat)
    requires i < |Digits(n)|
    ensures |Backwards(n)| == |Digits(n)|
    ensures Backwards(n)[i] == Digits(n)[|Digits(n)| - 1 - i]
  {
    if n >= 10 {
      BackwardsIs(n / 10, if i == 0 then 0 else i - 1);
    }
  }

  lemma {:induction false} BackwardsLength(n: nat)
    ensures |Backwards(n)| == |Digits(n)|
  {
    BackwardsIs(n, 0);
  }

  /** What fltoa has written, read backwards. */
  lemma {:induction false} ReversedIs(number: int, written: bytes, text: bytes)
    requires written == Backwards(if number < 0 then -number else number) + (if number < 0 then [45] else [])
    requires |text| == |written| && forall i :: 0 <= i < |text| ==> text[i] == written[|written| - 1 - i]
    ensures text == Signed(number)
  {
    hide Backwards;
    var n: nat := if number < 0 then -number else number;
    var neg := if number < 0 then 1 else 0;
    BackwardsLength(n);
    forall i | 0 <= i < |text|
      ensures text[i] == Signed(number)[i]
    {
      if i >= neg {
        BackwardsIs(n, |written| - 1 - i);
      }
    }
  }

  /** The digit loop of fltoa. */
  method WriteDigits(number: nat, buf: array<byte>) returns (tmp: nat)
    requires |Digits(number)| <= buf.Length
    modifies buf
    ensures tmp == |Digits(number)| && buf[..tmp] == Backwards(number)
  {
    BackwardsLength(number);
    var rest := number;
    tmp := 0;
    while true
      invariant tmp + |Backwards(rest)| == |Backwards(number)|
      invariant buf[..tmp] + Backwards(rest) == Backwards(number)
      decreases rest
    {
      buf[tmp] := 48 + rest % 10;
      tmp := tmp + 1;
      assert buf[..tmp] + Backwards(rest)[1..] == Backwards(number);
      if rest / 10 == 0 { break; }
      rest := rest / 10;
    }
  }

  /** fltoa: no fixnum needs more than the 20 bytes of the caller's buffer. */
  method LongToText(number: int, buf: array<byte>) returns (n: nat)
    requires -FIXNUM_LIMIT <= number <= FIXNUM_LIMIT && buf.Length >= 20
    modifies buf
    ensures n <= 20 && buf[..n] == Signed(number)
  {
    hide Digits, Backwards, Signed;
    var rest: nat := if number < 0 then -number else number;
    FixnumDigits(rest);
    var tmp := WriteDigits(rest, buf);
    ghost var digits := buf[..tmp];
    if number < 0 {
      buf[tmp] := 45;
      tmp := tmp + 1;
    }
    ghost var written := buf[..tmp];
    assert written == digits + if number < 0 then [45] else [];
    ReverseInPlace(buf, 0, tmp - 1);
    n := tmp;
    assert forall i :: 0 <= i < n ==> buf[..n][i] == written[n - 1 - i];
    ReversedIs(number, written, buf[..n]);
  }
}
