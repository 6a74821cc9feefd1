/** memmove and memset of lib/string.c, in their byte-wise and their compiled word-wise forms. Addresses index memory. */
module Memory {
  import opened CTypes

  /** The n bytes at dst are what the n bytes at src were, and nothing else has changed (section 7.21.2.2 of ISO C99). */
  ghost predicate Moved(before: seq<byte>, after: seq<byte>, dst: nat, src: nat, n: nat)
    requires dst + n <= |before| && src + n <= |before|
  {
    && |after| == |before|
    && (forall k :: dst <= k < dst + n ==> after[k] == before[src + (k - dst)])
    && (forall k :: 0 <= k < |before| && !(dst <= k < dst + n) ==> after[k] == before[k])
  }

  /** The n bytes at v are c, and nothing else has changed. */
  ghost predicate Filled(before: seq<byte>, after: seq<byte>, v: nat, c: byte, n: nat)
    requires v + n <= |before|
  {
    && |after| == |before|
    && forall k :: 0 <= k < |before| ==> after[k] == if v <= k < v + n then c else before[k]
  }

  /** A result is the only one. */
  lemma MovedIsUnique(before: seq<byte>, a: seq<byte>, b: seq<byte>, dst: nat, src: nat, n: nat)
    requires dst + n <= |before| && src + n <= |before| && Moved(before, a, dst, src, n) && Moved(before, b, dst, src, n)
    ensures a == b
  {
    forall k | 0 <= k < |before| ensures a[k] == b[k] {}
  }

  lemma FilledIsUnique(before: seq<byte>, a: seq<byte>, b: seq<byte>, v: nat, c: byte, n: nat)
    requires v + n <= |before| && Filled(before, a, v, c, n) && Filled(before, b, v, c, n)
    ensures a == b
  {
    forall k | 0 <= k < |before| ensures a[k] == b[k] {}
  }

  // ---------- The string instructions ----------

  /** cld; rep movsb */
  method RepMovsbForward(mem: array<byte>, edi: nat, esi: nat, ecx: nat)
    requires edi + ecx <= mem.Length && esi + ecx <= mem.Length
    requires !(esi < edi < esi + ecx)
    modifies mem
    ensures Moved(old(mem[..]), mem[..], edi, esi, ecx)
  {
    ghost var m := mem[..];
    for i := 0 to ecx
      invariant Moved(m, mem[..], edi, esi, i)
    {
      assert mem[..][esi + i] == m[esi + i];
      mem[edi + i] := mem[esi + i];
    }
  }

  /** std; rep movsb, with edi and esi at the last bytes */
  method RepMovsbBackward(mem: array<byte>, edi: int, esi: int, ecx: nat)
    requires -1 <= edi - ecx && edi < mem.Length && -1 <= esi - ecx && esi < mem.Length
    requires !(edi < esi < edi + ecx)
    modifies mem
    ensures Moved(old(mem[..]), mem[..], edi - ecx + 1, esi - ecx + 1, ecx)
  {
    ghost var m := mem[..];
    for i := 0 to ecx
      invariant Moved(m, mem[..], edi - i + 1, esi - i + 1, i)
    {
      assert mem[..][esi - i] == m[esi - i];
      mem[edi - i] := mem[esi - i];
    }
  }

  /** One word, read as a whole and then written. */
  method MoveWord(mem: array<byte>, d: nat, s: nat)
    requires d + 4 <= mem.Length && s + 4 <= mem.Length
    modifies mem
    ensures Moved(old(mem[..]), mem[..], d, s, 4)
  {
    var b0, b1, b2, b3 := mem[s], mem[s + 1], mem[s + 2], mem[s + 3];
    mem[d], mem[d + 1], mem[d + 2], mem[d + 3] := b0, b1, b2, b3;
  }

  /** Another word after the n bytes that a forward move has done. */
  lemma MovedForward(m: seq<byte>, m1: seq<byte>, m2: seq<byte>, dst: nat, src: nat, n: nat)
    requires dst + n + 4 <= |m| && src + n + 4 <= |m| && (src + n + 4 <= dst || dst <= src)
    requires Moved(m, m1, dst, src, n) && Moved(m1, m2, dst + n, src + n, 4)
    ensures Moved(m, m2, dst, src, n + 4)
  {
  }

  /** Another word before the n bytes that a backward move has done. */
  lemma MovedBackward(m: seq<byte>, m1: seq<byte>, m2: seq<byte>, dst: nat, src: nat, n: nat)
    requires 4 <= dst && 4 <= src && dst + n <= |m| && src + n <= |m| && (src <= dst || dst + n <= src - 4)
    requires Moved(m, m1, dst, src, n) && Moved(m1, m2, dst - 4, src - 4, 4)
    ensures Moved(m, m2, dst - 4, src - 4, n + 4)
  {
  }

  /** cld; rep movsl */
  method RepMovslForward(mem: array<byte>, edi: nat, esi: nat, ecx: nat)
    requires edi + 4 * ecx <= mem.Length && esi + 4 * ecx <= mem.Length
    requires !(esi < edi < esi + 4 * ecx)
    modifies mem
    ensures Moved(old(mem[..]), mem[..], edi, esi, 4 * ecx)
  {
    hide Moved;
    ghost var m := mem[..];
    var d, s := edi, esi;
    ghost var n := 0;
    MovedNone(m, edi, esi);
    for i := 0 to ecx
      invariant n == 4 * i && d == edi + n && s == esi + n
      invariant Moved(m, mem[..], edi, esi, n)
    {
      ghost var m1 := mem[..];
      MoveWord(mem, d, s);
      MovedForward(m, m1, mem[..], edi, esi, n);
      d, s, n := d + 4, s + 4, n + 4;
    }
  }

  /** Where a backward move is after i of ecx words. */
  lemma BackwardRoom(edi: int, esi: int, ecx: nat, i: nat)
    requires i < ecx && 0 <= edi + 4 - 4 * ecx && 0 <= esi + 4 - 4 * ecx && !(edi < esi < edi + 4 * ecx)
    ensures var d, s := edi - 4 * i, esi - 4 * i; 0 <= d && 0 <= s && (s <= d || edi + 4 <= s)
  {
  }

  /** std; rep movsl, with edi and esi at the last words */
  method RepMovslBackward(mem: array<byte>, edi: int, esi: int, ecx: nat)
    requires 0 <= edi + 4 - 4 * ecx && edi + 4 <= mem.Length && 0 <= esi + 4 - 4 * ecx && esi + 4 <= mem.Length
    requires !(edi < esi < edi + 4 * ecx)
    modifies mem
    ensures Moved(old(mem[..]), mem[..], edi + 4 - 4 * ecx, esi + 4 - 4 * ecx, 4 * ecx)
  {
    hide Moved;
    ghost var m := mem[..];
    var d, s := edi, esi;
    MovedNone(m, d + 4, s + 4);
    for i := 0 to ecx
      invariant d == edi - 4 * i && s == esi - 4 * i
      invariant Moved(m, mem[..], d + 4, s + 4, 4 * i)
    {
      ghost var m1 := mem[..];
      BackwardRoom(edi, esi, ecx, i);
      MoveWord(mem, d, s);
      MovedBackward(m, m1, mem[..], d + 4, s + 4, 4 * i);
      d, s := d - 4, s - 4;
    }
  }

  lemma MovedNone(m: seq<byte>, dst: nat, src: nat)
    requires dst <= |m| && src <= |m|
    ensures Moved(m, m, dst, src, 0)
  {
  }

  // ---------- memmove ----------

  lemma WholeWords(n: nat)
    requires n % 4 == 0
    ensures 4 * (n / 4) == n
  {
  }

  /** memmove, as compiled with ASM */
  method Memmove(mem: array<byte>, dst: nat, src: nat, n: nat)
    requires dst + n <= mem.Length && src + n <= mem.Length
    modifies mem
    ensures Moved(old(mem[..]), mem[..], dst, src, n)
  {
    hide Moved;
    var s, d := src, dst;
    if s < d && s + n > d {
      s, d := s + n, d + n;
      if s % 4 == 0 && d % 4 == 0 && n % 4 == 0 {
        WholeWords(n);
        var words := n / 4;
        RepMovslBackward(mem, d - 4, s - 4, words);
      } else {
        RepMovsbBackward(mem, d - 1, s - 1, n);
      }
    } else if s % 4 == 0 && d % 4 == 0 && n % 4 == 0 {
      WholeWords(n);
      var words := n / 4;
      RepMovslForward(mem, d, s, words);
    } else {
      RepMovsbForward(mem, d, s, n);
    }
  }

  /** memmove, as compiled without ASM */
  method MemmoveBytes(mem: array<byte>, dst: nat, src: nat, n0: nat)
    requires dst + n0 <= mem.Length && src + n0 <= mem.Length
    modifies mem
    ensures Moved(old(mem[..]), mem[..], dst, src, n0)
  {
    ghost var m := mem[..];
    var s, d, n := src, dst, n0;
    if s < d && s + n > d {
      s, d := s + n, d + n;
      while n > 0
        invariant 0 <= n <= n0 && s == src + n && d == dst + n
        invariant Moved(m, mem[..], d, s, n0 - n)
      {
        n, d, s := n - 1, d - 1, s - 1;
        assert mem[..][s] == m[s];
        mem[d] := mem[s];
      }
    } else {
      while n > 0
        invariant 0 <= n <= n0 && s == src + (n0 - n) && d == dst + (n0 - n)
        invariant Moved(m, mem[..], dst, src, n0 - n)
      {
        assert mem[..][s] == m[s];
        mem[d] := mem[s];
        n, d, s := n - 1, d + 1, s + 1;
      }
    }
  }

  // ---------- memset ----------

  /** The bytes of a 32-bit word, least significant first. */
  function ByteOf(w: int, k: nat): byte
    requires k < 4
  {
    match k
    case 0 => w % 0x100
    case 1 => w / 0x100 % 0x100
    case 2 => w / 0x1_0000 % 0x100
    case 3 => w / 0x100_0000 % 0x100
  }

  /** (c<<24)|(c<<16)|(c<<8)|c for a byte c */
  function Replicated(c: byte): int { c * 0x100_0000 + c * 0x1_0000 + c * 0x100 + c }

  lemma ReplicatedBytes(c: byte)
    ensures var w := Replicated(c);
      ByteOf(w, 0) == c && ByteOf(w, 1) == c && ByteOf(w, 2) == c && ByteOf(w, 3) == c
  {
    var w := Replicated(c);
    assert w / 0x100 == c * 0x1_0000 + c * 0x100 + c;
    assert w / 0x1_0000 == c * 0x100 + c;
    assert w / 0x100_0000 == c;
  }

  /** One word is stored. */
  method StoreWord(mem: array<byte>, at: nat, w: int)
    requires at + 4 <= mem.Length
    modifies mem
    ensures mem[..] == old(mem[..])[at := ByteOf(w, 0)][at + 1 := ByteOf(w, 1)][at + 2 := ByteOf(w, 2)][at + 3 := ByteOf(w, 3)]
  {
    mem[at], mem[at + 1], mem[at + 2], mem[at + 3] := ByteOf(w, 0), ByteOf(w, 1), ByteOf(w, 2), ByteOf(w, 3);
  }

  /** memset, as compiled with ASM: rep stosl over words or rep stosb over bytes */
  method Memset(mem: array<byte>, v: nat, c: int, n: nat)
    requires v + n <= mem.Length
    modifies mem
    ensures Filled(old(mem[..]), mem[..], v, c % 0x100, n)
  {
    hide ByteOf, Replicated;
    ghost var m := mem[..];
    if n == 0 { return; }
    if v % 4 == 0 && n % 4 == 0 {
      var b: byte := c % 0x100;
      ReplicatedBytes(b);
      for i := 0 to n / 4
        invariant Filled(m, mem[..], v, b, 4 * i)
      {
        StoreWord(mem, v + 4 * i, Replicated(b));
      }
    } else {
      for i := 0 to n
        invariant Filled(m, mem[..], v, c % 0x100, i)
      {
        mem[v + i] := c % 0x100;
      }
    }
  }

  /** What the byte-wise memset leaves: it counts in an int, so that a count above INT_MAX, taken for negative, fills
      nothing. */
  ghost predicate FilledByInt(before: seq<byte>, after: seq<byte>, v: nat, c: byte, n: nat)
    requires v + n <= |before|
  {
    if n < 0x8000_0000 then Filled(before, after, v, c, n) else after == before
  }

  /** memset, as compiled without ASM. For n == 0x80000000 the decrement of the least int overflows. */
  method MemsetBytes(mem: array<byte>, v: nat, c: int, n: uint32)
    requires v + n <= mem.Length && n != 0x8000_0000
    modifies mem
    ensures FilledByInt(old(mem[..]), mem[..], v, c % 0x100, n)
  {
    ghost var before := mem[..];
    var p, m := v, if n <= INT_MAX then n else n - 0x1_0000_0000;
    while m - 1 >= 0
      invariant n <= INT_MAX ==> 0 <= m <= n && p == v + (n - m) && Filled(before, mem[..], v, c % 0x100, n - m)
      invariant n > INT_MAX ==> m < 0 && mem[..] == before
    {
      mem[p] := c % 0x100;
      p, m := p + 1, m - 1;
    }
  }

  /** The two memsets leave the same memory if and only if the count is an int or the region is full of c anyway. */
  lemma MemsetsAgreeIff(before: seq<byte>, a: seq<byte>, b: seq<byte>, v: nat, c: byte, n: nat)
    requires v + n <= |before| && Filled(before, a, v, c, n) && FilledByInt(before, b, v, c, n)
    ensures a == b <==> n < 0x8000_0000 || forall k :: v <= k < v + n ==> before[k] == c
  {
    if n < 0x8000_0000 {
      FilledIsUnique(before, a, b, v, c, n);
    } else if forall k :: v <= k < v + n ==> before[k] == c {
      FilledIsUnique(before, a, b, v, c, n);
    }
  }
}
