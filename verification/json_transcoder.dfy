/**
 What the string encoder and the string decoder of the Java extension share
 (ByteListTranscoder.java): reading UTF-8 one character at a time, and copying a
 sequence of characters in one go when it ends.
 */
module JsonTranscoder {
  import opened Bytes
  import Utf8

  // ---------------------------------------------------------------- reading a character

  /** A code point and where the next character begins. */
  datatype Read = Read(code: nat, next: nat)

  /** The low six bits of a tail byte. */
  function Part(b: byte): (n: nat)
    ensures n < 64
  {
    b % 64
  }

  predicate TailsAt(s: bytes, p: nat, n: nat) {
    && p + n <= |s|
    && (n > 0 ==> Utf8.IsTail(s[p])) && (n > 1 ==> Utf8.IsTail(s[p + 1])) && (n > 2 ==> Utf8.IsTail(s[p + 2]))
  }

  /** What readUtf8Char reads at `p`, None for its exceptions. */
  function ReadAt(s: bytes, p: nat): (r: Option<Read>)
    requires p < |s|
    ensures r.Some? ==> p < r.value.next <= |s| && r.value.code <= 0x10FFFF
  {
    var head := s[p];
    if head <= 0x7F then Some(Read(head, p + 1))
    else if head <= 0xBF then None
    else if head <= 0xDF then
      if !TailsAt(s, p + 1, 1) then None
      else
        var cp := head % 32 * 64 + Part(s[p + 1]);
        if cp < 0x80 then None else Some(Read(cp, p + 2))
    else if head <= 0xEF then
      if !TailsAt(s, p + 1, 2) then None
      else
        var cp := head % 16 * 4096 + Part(s[p + 1]) * 64 + Part(s[p + 2]);
        if cp < 0x800 then None else Some(Read(cp, p + 3))
    else if head <= 0xF7 then
      if !TailsAt(s, p + 1, 3) then None
      else
        var cp := head % 8 * 262144 + Part(s[p + 1]) * 4096 + Part(s[p + 2]) * 64 + Part(s[p + 3]);
        if cp > 0x10FFFF then None else Some(Read(cp, p + 4))
    else None
  }

  // ---------------------------------------------------------------- on encoded text

  lemma {:induction false} ReadEncoded(s: bytes, p: nat, c: Utf8.Scalar)
    requires At(s, p, Utf8.Encode(c))
    ensures p < |s| && ReadAt(s, p) == Some(Read(c, p + |Utf8.Encode(c)|))
  {
    AtIsSlice(s, p, Utf8.Encode(c));
    var n := |Utf8.Encode(c)|;
    var e := s[p..p + n];
    assert e[0] == s[p];
    assert n >= 2 ==> e[1] == s[p + 1];
    assert n >= 3 ==> e[2] == s[p + 2];
    assert n >= 4 ==> e[3] == s[p + 3];
    ReadBytes(c);
  }

  /** The bits of an encoded scalar value. */
  lemma {:induction false} ReadBytes(c: Utf8.Scalar)
    ensures var e := Utf8.Encode(c);
            && (|e| == 2 ==> e[0] as int % 32 * 64 + Part(e[1]) == c)
            && (|e| == 3 ==> e[0] as int % 16 * 4096 + Part(e[1]) * 64 + Part(e[2]) == c)
            && (|e| == 4 ==> e[0] as int % 8 * 262144 + Part(e[1]) * 4096 + Part(e[2]) * 64 + Part(e[3]) == c)
  {
    if 0x80 <= c < 0x800 {
      ReadTwo(c);
    } else if 0x800 <= c < 0x10000 {
      ReadThree(c);
    } else if c >= 0x10000 {
      ReadFour(c);
    }
  }

  lemma {:induction false} ReadTwo(c: nat)
    requires 0x80 <= c < 0x800
    ensures (0xC0 + c / 64) % 32 * 64 + Part(0x80 + c % 64) == c
  {
    hide Part;
    PartOf(c);
    assert (0xC0 + c / 64) % 32 == c / 64;
  }

  lemma {:induction false} ReadThree(c: nat)
    requires 0x800 <= c < 0x10000
    ensures (0xE0 + c / 4096) % 16 * 4096 + Part(0x80 + c / 64 % 64) * 64 + Part(0x80 + c % 64) == c
  {
    hide Part;
    PartOf(c);
    PartOf(c / 64);
    ShiftTwice(c);
    assert (0xE0 + c / 4096) % 16 == c / 4096;
  }

  lemma {:induction false} ReadFour(c: nat)
    requires 0x10000 <= c <= 0x10FFFF
    ensures (0xF0 + c / 262144) % 8 * 262144 + Part(0x80 + c / 4096 % 64) * 4096
            + Part(0x80 + c / 64 % 64) * 64 + Part(0x80 + c % 64) == c
  {
    hide Part;
    PartOf(c);
    PartOf(c / 64);
    PartOf(c / 4096);
    ShiftTwice(c);
    assert (0xF0 + c / 262144) % 8 == c / 262144;
  }

  lemma {:induction false} ShiftTwice(n: nat)
    ensures n / 64 / 64 == n / 4096 && n / 4096 / 64 == n / 262144
  {
  }

  lemma {:induction false} PartOf(n: nat)
    ensures Part(0x80 + n % 64) == n % 64 && n == n / 64 * 64 + n % 64
  {
  }

  // ---------------------------------------------------------------- the transcoder

  class Transcoder {
    var src: bytes
    var srcEnd: nat
    var charStart: nat
    var pos: nat
    var out: bytes
    var quoteStart: int

    predicate Valid()
      reads this
    {
      charStart <= pos <= srcEnd <= |src| && -1 <= quoteStart <= charStart
    }

    /** The source up to the end of what is to be read. */
    function Source(): bytes
      requires srcEnd <= |src|
      reads this
    {
      src[..srcEnd]
    }

    /** What has been written and what is still to be copied, up to `end`. */
    function WrittenTo(end: nat): bytes
      requires quoteStart <= end <= |src| && -1 <= quoteStart
      reads this
    {
      out + if quoteStart == -1 then [] else src[quoteStart..end]
    }

    constructor ()
      ensures Valid() && quoteStart == -1
    {
      src, srcEnd, charStart, pos, out, quoteStart := [], 0, 0, 0, [], -1;
    }

    /** init; a sequence that is still pending stays so. */
    method Init(src: bytes, start: nat, end: nat, out: bytes)
      requires start <= end <= |src|
      modifies this
      ensures this.src == src && srcEnd == end && pos == charStart == start && this.out == out
      ensures quoteStart == old(quoteStart)
    {
      this.src, pos, charStart, srcEnd, this.out := src, start, start, end, out;
    }

    /** nextPart, after ensureMin: the low bits of a tail byte. */
    method NextPart() returns (part: Option<nat>)
      requires pos < |src|
      modifies this`pos
      ensures pos == old(pos) + 1
      ensures part == if Utf8.IsTail(src[old(pos)]) then Some(Part(src[old(pos)])) else None
    {
      var c := src[pos];
      pos := pos + 1;
      return if Utf8.IsTail(c) then Some(Part(c)) else None;
    }

    /** readUtf8Char; None for the exceptions. The first byte is read without a look at the end. */
    method ReadUtf8Char() returns (code: Option<nat>)
      requires pos <= srcEnd <= |src| && pos < |src|
      modifies this`charStart, this`pos
      ensures charStart == old(pos) < pos
      ensures old(pos) < srcEnd ==>
                pos <= srcEnd
                && match ReadAt(Source(), old(pos)) {
                     case None => code == None
                     case Some(r) => code == Some(r.code) && pos == r.next
                   }
      ensures old(pos) == srcEnd && src[srcEnd] <= 0x7F ==> code == Some(src[srcEnd])
    {
      charStart := pos;
      var head: int := src[pos];
      pos := pos + 1;
      if head <= 0x7F { return Some(head); }
      if head <= 0xBF { return None; }
      if head <= 0xDF {
        if pos + 1 > srcEnd { return None; }
        var a := NextPart();
        if a.None? { return None; }
        var cp := head % 32 * 64 + a.value;
        return if cp < 0x80 then None else Some(cp);
      }
      if head <= 0xEF {
        if pos + 2 > srcEnd { return None; }
        var a := NextPart();
        if a.None? { return None; }
        var b := NextPart();
        if b.None? { return None; }
        var cp := head % 16 * 4096 + a.value * 64 + b.value;
        return if cp < 0x800 then None else Some(cp);
      }
      if head <= 0xF7 {
        if pos + 3 > srcEnd { return None; }
        var a := NextPart();
        if a.None? { return None; }
        var b := NextPart();
        if b.None? { return None; }
        var c := NextPart();
        if c.None? { return None; }
        var cp := head % 8 * 262144 + a.value * 4096 + b.value * 64 + c.value;
        return if cp > 0x10FFFF then None else Some(cp);
      }
      return None;
    }

    /** quoteStart: the character read last begins a sequence, unless one is pending. */
    method QuoteStart()
      requires Valid()
      modifies this`quoteStart
      ensures Valid() && quoteStart != -1
      ensures WrittenTo(pos) == old(WrittenTo(charStart)) + src[charStart..pos]
    {
      if quoteStart == -1 { quoteStart := charStart; }
      assert old(WrittenTo(charStart)) + src[charStart..pos] == WrittenTo(pos);
    }

    /** quoteStop: a pending sequence is copied, up to `end`. */
    method QuoteStop(end: nat)
      requires quoteStart <= end <= |src| && -1 <= quoteStart
      modifies this`out, this`quoteStart
      ensures quoteStart == -1 && out == old(WrittenTo(end))
    {
      if quoteStart != -1 {
        out := out + src[quoteStart..end];
        quoteStart := -1;
      }
    }

    /** append */
    method Append(text: bytes)
      modifies this`out
      ensures out == old(out) + text
    {
      out := out + text;
    }
  }
}
