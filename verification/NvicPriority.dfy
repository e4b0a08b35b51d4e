/** Interrupt priorities: packing preemption and sub-priority, and the priority register bytes. */
module NvicPriority {
  import opened Powers
  import opened Bits

  /** The number of implemented priority bits, __NVIC_PRIO_BITS. */
  ghost predicate IsPrioBits(bits: nat)
  {
    1 <= bits <= 8
  }

  function Sub32(x: nat, y: nat): nat
  {
    DivModParts(x - y, 0x1_0000_0000);
    (x - y) % 0x1_0000_0000
  }

  function Add32(x: nat, y: nat): nat
  {
    (x + y) % 0x1_0000_0000
  }

  /** PriorityGroup & 0x07. */
  function Group(priorityGroup: nat): nat
  {
    And(priorityGroup, 0x07)
  }

  lemma GroupRange(priorityGroup: nat)
    ensures Group(priorityGroup) == priorityGroup % 8
  {
    assert Pow2(3) == 8;
    AndOnes(priorityGroup, 3);
    LowIsMod(priorityGroup, 3);
  }

  function PreemptBits(bits: nat, priorityGroup: U32): nat
  {
    var g := Group(priorityGroup);
    if Sub32(7, g) > bits then bits else Sub32(7, g)
  }

  function SubBits(bits: nat, priorityGroup: U32): nat
  {
    var g := Group(priorityGroup);
    if Add32(g, bits) < 7 then 0 else Add32(Sub32(g, 7), bits)
  }

  /** The two widths always share out exactly the implemented bits: the underflow of g - 7 cancels. */
  lemma BitsAreShared(bits: nat, priorityGroup: U32)
    requires IsPrioBits(bits)
    ensures PreemptBits(bits, priorityGroup) + SubBits(bits, priorityGroup) == bits
    ensures PreemptBits(bits, priorityGroup)
         == var room := 7 - priorityGroup % 8; if room > bits then bits else room
  {
    GroupRange(priorityGroup);
    SharedOut(bits, priorityGroup % 8);
  }

  lemma SharedOut(bits: nat, g: nat)
    requires IsPrioBits(bits) && g < 8
    ensures Sub32(7, g) == 7 - g
    ensures Add32(g, bits) == g + bits
    ensures 7 <= g + bits ==> Add32(Sub32(g, 7), bits) == g + bits - 7
  {
    if g < 7 {
      assert Sub32(g, 7) == 0x1_0000_0000 + g - 7;
    }
  }

  /** (1UL << k) - 1UL. */
  function OnesMask(k: nat): nat
  {
    Sub32(Shl(32, 1, k), 1)
  }

  lemma OnesMaskValue(k: nat)
    requires k < 32
    ensures OnesMask(k) == Pow2(k) - 1
  {
    Pow2Mono(k, 32);
    Pow2Values();
    UnitShift(32, k);
    ModSmall(Pow2(k) - 1, 0x1_0000_0000);
  }

  lemma UnitShift(n: nat, k: nat)
    requires k < n
    ensures Shl(n, 1, k) == Pow2(k)
  {
    ScaleOne(k);
    Pow2Mono(k, n);
    LowSmall(Pow2(k), n);
  }

  /** NVIC_EncodePriority(). */
  function Encode(bits: nat, priorityGroup: U32, preempt: U32, sub: U32): nat
  {
    var p, s := PreemptBits(bits, priorityGroup), SubBits(bits, priorityGroup);
    Or(Shl(32, And(preempt, OnesMask(p)), s), And(sub, OnesMask(s)))
  }

  /** NVIC_DecodePriority(), which writes its two results through pointers. */
  function DecodePreempt(bits: nat, priority: U32, priorityGroup: U32): nat
  {
    And(Shr(priority, SubBits(bits, priorityGroup)), OnesMask(PreemptBits(bits, priorityGroup)))
  }

  function DecodeSub(bits: nat, priority: U32, priorityGroup: U32): nat
  {
    And(priority, OnesMask(SubBits(bits, priorityGroup)))
  }

  // ---------- the code as a number of two digits ----------

  lemma WidthsInRange(bits: nat, g: U32)
    requires IsPrioBits(bits)
    ensures PreemptBits(bits, g) + SubBits(bits, g) == bits <= 8
  {
    BitsAreShared(bits, g);
  }

  /** Masking with (1UL << k) - 1UL keeps the low k bits. */
  lemma AndOnesMask(x: nat, k: nat)
    requires k < 32
    ensures And(x, OnesMask(k)) == Low(x, k)
  {
    OnesMaskValue(k);
    AndOnes(x, k);
  }

  /** (hi << s) | lo for digits that fit. */
  lemma TwoDigits(n: nat, hi: nat, p: nat, lo: nat, s: nat, bits: nat)
    requires hi < Pow2(p) && lo < Pow2(s) && p + s == bits <= n
    ensures Or(Shl(n, hi, s), lo) == Scale(hi, s) + lo < Pow2(bits)
  {
    ScaleBound(hi, p, s);
    Pow2Mono(bits, n);
    LowSmall(Scale(hi, s), n);
    DigitsAreDisjoint(hi, lo, s);
    OrDisjoint(Scale(hi, s), lo);
  }

  /** The code is the preemption priority above the sub-priority, each reduced to its width. */
  lemma EncodeValue(bits: nat, g: U32, preempt: U32, sub: U32)
    requires IsPrioBits(bits)
    ensures var p, s := PreemptBits(bits, g), SubBits(bits, g);
      Encode(bits, g, preempt, sub) == Scale(Low(preempt, p), s) + Low(sub, s) < Pow2(bits)
  {
    WidthsInRange(bits, g);
    TwoMaskedDigits(32, bits, preempt, PreemptBits(bits, g), sub, SubBits(bits, g));
  }

  lemma TwoMaskedDigits(n: nat, bits: nat, preempt: nat, p: nat, sub: nat, s: nat)
    requires p + s == bits <= n && p < 32 && s < 32
    ensures Or(Shl(n, And(preempt, OnesMask(p)), s), And(sub, OnesMask(s)))
         == Scale(Low(preempt, p), s) + Low(sub, s) < Pow2(bits)
  {
    AndOnesMask(preempt, p);
    AndOnesMask(sub, s);
    LowBound(preempt, p);
    LowBound(sub, s);
    TwoDigits(n, Low(preempt, p), p, Low(sub, s), s, bits);
  }

  lemma {:induction false} DigitsAreDisjoint(hi: nat, lo: nat, s: nat)
    requires lo < Pow2(s)
    ensures And(Scale(hi, s), lo) == 0
    decreases s
  {
    if s == 0 {
    } else {
      DigitsAreDisjoint(hi, lo / 2, s - 1);
      AndStep(Scale(hi, s), lo);
    }
  }

  lemma DecodeValue(bits: nat, x: U32, g: U32)
    requires IsPrioBits(bits)
    ensures var p, s := PreemptBits(bits, g), SubBits(bits, g);
      DecodePreempt(bits, x, g) == Low(Shr(x, s), p) && DecodeSub(bits, x, g) == Low(x, s)
  {
    var p, s := PreemptBits(bits, g), SubBits(bits, g);
    WidthsInRange(bits, g);
    AndOnesMask(Shr(x, s), p);
    AndOnesMask(x, s);
  }

  // ---------- round trips and order ----------

  /** Decoding an encoded pair gives the pair back, each part reduced to its width. */
  lemma DecodeOfEncode(bits: nat, g: U32, preempt: U32, sub: U32)
    requires IsPrioBits(bits)
    ensures Encode(bits, g, preempt, sub) < Pow2(bits) <= 0x1_0000_0000
    ensures DecodePreempt(bits, Encode(bits, g, preempt, sub), g) == preempt % Pow2(PreemptBits(bits, g))
    ensures DecodeSub(bits, Encode(bits, g, preempt, sub), g) == sub % Pow2(SubBits(bits, g))
  {
    var p, s := PreemptBits(bits, g), SubBits(bits, g);
    Pow2Values();
    Pow2Mono(bits, 32);
    EncodeValue(bits, g, preempt, sub);
    DecodeValue(bits, Encode(bits, g, preempt, sub), g);
    LowBound(sub, s);
    Join(Low(preempt, p), Low(sub, s), s);
    LowBound(preempt, p);
    LowSmall(Low(preempt, p), p);
    LowIsMod(preempt, p);
    LowIsMod(sub, s);
  }

  /** Encoding a decoded priority gives its implemented bits back. */
  lemma EncodeOfDecode(bits: nat, g: U32, x: U32)
    requires IsPrioBits(bits)
    ensures DecodePreempt(bits, x, g) < 0x1_0000_0000 && DecodeSub(bits, x, g) < 0x1_0000_0000
    ensures Encode(bits, g, DecodePreempt(bits, x, g), DecodeSub(bits, x, g)) == x % Pow2(bits)
  {
    var p, s := PreemptBits(bits, g), SubBits(bits, g);
    var hi, lo := DecodePreempt(bits, x, g), DecodeSub(bits, x, g);
    DecodeInWord(bits, x, g);
    EncodeValue(bits, g, hi, lo);
    DecodeValue(bits, x, g);
    LowTwice(Shr(x, s), p);
    LowTwice(x, s);
    DigitsOfLow(bits, x, p, s) by {
      WidthsInRange(bits, g);
    }
  }

  lemma DigitsOfLow(bits: nat, x: nat, p: nat, s: nat)
    requires p + s == bits
    ensures Scale(Low(Shr(x, s), p), s) + Low(x, s) == x % Pow2(bits)
  {
    LowInTwoParts(x, p, s);
    LowIsMod(x, bits);
  }

  lemma DecodeInWord(bits: nat, x: U32, g: U32)
    requires IsPrioBits(bits)
    ensures DecodePreempt(bits, x, g) <= x && DecodeSub(bits, x, g) <= x
  {
    var p, s := PreemptBits(bits, g), SubBits(bits, g);
    AndBound(x, OnesMask(s));
    AndBound(Shr(x, s), OnesMask(p));
    ShrBound(x, s);
  }

  lemma {:induction false} LowInTwoParts(x: nat, p: nat, s: nat)
    ensures Low(x, p + s) == Scale(Low(Shr(x, s), p), s) + Low(x, s)
    decreases s
  {
    if s == 0 {
    } else {
      LowInTwoParts(x / 2, p, s - 1);
    }
  }

  /** The codes are ordered as the pairs are: preemption priority first, sub-priority second. */
  lemma EncodeKeepsOrder(bits: nat, g: U32, preempt: U32, sub: U32, preempt': U32, sub': U32)
    requires IsPrioBits(bits)
    requires preempt < Pow2(PreemptBits(bits, g)) && preempt' < Pow2(PreemptBits(bits, g))
    requires sub < Pow2(SubBits(bits, g)) && sub' < Pow2(SubBits(bits, g))
    ensures Encode(bits, g, preempt, sub) < Encode(bits, g, preempt', sub')
       <==> preempt < preempt' || (preempt == preempt' && sub < sub')
  {
    var p, s := PreemptBits(bits, g), SubBits(bits, g);
    EncodeValue(bits, g, preempt, sub);
    EncodeValue(bits, g, preempt', sub');
    LowSmall(preempt, p);
    LowSmall(preempt', p);
    LowSmall(sub, s);
    LowSmall(sub', s);
    if preempt < preempt' {
      ScaleMono(preempt, preempt', s);
    } else if preempt' < preempt {
      ScaleMono(preempt', preempt, s);
    }
  }

  // ---------- the priority registers ----------

  /** Interrupt numbers whose priority can be set. */
  ghost predicate IsIrq(irq: int)
  {
    -12 <= irq < 240
  }

  /** The index of a core interrupt in the SHP bytes. */
  function ShpIndex(irq: int): int
    requires -12 <= irq < 0
  {
    And(irq + 0x1_0000_0000, 0xF) - 4
  }

  lemma LowNibble(x: nat, n: nat)
    requires n == 4
    ensures And(x, 0xF) == x % 16
  {
    assert Pow2(4) == 16;
    AndOnes(x, n);
    LowIsMod(x, n);
  }

  lemma ShpIndexValue(irq: int)
    requires -12 <= irq < 0
    ensures ShpIndex(irq) == irq + 12
  {
    var x := irq + 0x1_0000_0000;
    assert x % 16 == irq + 16;
    LowNibble(x, 4);
  }

  /** (priority << (8 - bits)) & 0xFF, and the shift that undoes it. */
  function ToByte(bits: nat, priority: U32): nat
    requires IsPrioBits(bits)
  {
    And(Shl(32, priority, 8 - bits), 0xFF)
  }

  function FromByte(bits: nat, x: nat): nat
    requires IsPrioBits(bits)
  {
    Shr(x, 8 - bits)
  }

  /** Truncating a shifted value to w + s bits and shifting back keeps its low w bits. */
  lemma ShiftOutAndBack(x: nat, s: nat, w: nat, n: nat)
    requires w + s <= n
    ensures Shr(Low(Shl(n, x, s), w + s), s) == Low(x, w)
  {
    LowLow(Scale(x, s), w + s, n);
    LowOfScale(x, s, w);
    Join(Low(x, w), 0, s);
  }

  lemma AndByte(x: nat, n: nat)
    requires n == 8
    ensures And(x, 0xFF) == Low(x, n) < 0x100
  {
    assert Pow2(8) == 0x100;
    AndOnes(x, n);
    LowBound(x, n);
  }

  /** The implemented bits of a priority stand at the top of its byte, above zeros ... */
  lemma ByteValue(bits: nat, priority: U32)
    requires IsPrioBits(bits)
    ensures ToByte(bits, priority) == (priority % Pow2(bits)) * Pow2(8 - bits)
  {
    var s := 8 - bits;
    AndByte(Shl(32, priority, s), 8);
    LowLow(Scale(priority, s), 8, 32);
    LowOfShift(priority, s, bits, 8);
    LowIsMod(priority, bits);
    ScaleIsMul(Low(priority, bits), s);
  }

  lemma LowOfShift(x: nat, s: nat, w: nat, n: nat)
    requires n == s + w
    ensures Low(Scale(x, s), n) == Scale(Low(x, w), s)
  {
    LowOfScale(x, s, w);
  }

  /** ... and are read from there. */
  lemma PriorityInByte(bits: nat, x: nat)
    requires IsPrioBits(bits)
    ensures FromByte(bits, x) == x / Pow2(8 - bits)
  {
    ShrIsDiv(x, 8 - bits);
  }

  /** A byte keeps the implemented bits of a priority. */
  lemma ByteRoundTrip(bits: nat, priority: U32)
    requires IsPrioBits(bits)
    ensures FromByte(bits, ToByte(bits, priority)) == priority % Pow2(bits)
    ensures ToByte(bits, priority) < 0x100
  {
    var s := 8 - bits;
    AndByte(Shl(32, priority, s), bits + s);
    ShiftOutAndBack(priority, s, bits, 32);
    LowIsMod(priority, bits);
  }

  /** A pair encoded, stored in a register byte, read and decoded comes back whole. */
  lemma PairSurvivesRegister(bits: nat, g: U32, preempt: U32, sub: U32)
    requires IsPrioBits(bits)
    requires preempt < Pow2(PreemptBits(bits, g)) && sub < Pow2(SubBits(bits, g))
    ensures Encode(bits, g, preempt, sub) < 0x1_0000_0000
    ensures FromByte(bits, ToByte(bits, Encode(bits, g, preempt, sub))) < 0x1_0000_0000
    ensures var x := FromByte(bits, ToByte(bits, Encode(bits, g, preempt, sub)));
      DecodePreempt(bits, x, g) == preempt && DecodeSub(bits, x, g) == sub
  {
    DecodeOfEncode(bits, g, preempt, sub);
    var e := Encode(bits, g, preempt, sub);
    ByteRoundTrip(bits, e);
    ModSmall(e, Pow2(bits));
    ModSmall(preempt, Pow2(PreemptBits(bits, g)));
    ModSmall(sub, Pow2(SubBits(bits, g)));
  }

  datatype Call = Call(irq: int, priority: U32)

  /** The priorities after some calls of NVIC_SetPriority(): a map updated by each call. */
  ghost function After(bits: nat, initial: map<int, nat>, calls: seq<Call>): map<int, nat>
  {
    if calls == [] then initial
    else
      var last := calls[|calls| - 1];
      After(bits, initial, calls[..|calls| - 1])[last.irq := Low(last.priority, bits)]
  }

  lemma AfterAppend(bits: nat, initial: map<int, nat>, calls: seq<Call>, c: Call)
    ensures After(bits, initial, calls + [c]) == After(bits, initial, calls)[c.irq := Low(c.priority, bits)]
  {
    assert (calls + [c])[..|calls|] == calls;
  }

  /** Each interrupt has the implemented bits of the last priority set for it, whatever was set for
      others since. */
  lemma {:induction false} LastSetCounts(bits: nat, initial: map<int, nat>, calls: seq<Call>, i: nat)
    requires i < |calls| && forall j :: i < j < |calls| ==> calls[j].irq != calls[i].irq
    ensures calls[i].irq in After(bits, initial, calls)
    ensures After(bits, initial, calls)[calls[i].irq] == calls[i].priority % Pow2(bits)
  {
    if i == |calls| - 1 {
      LowIsMod(calls[i].priority, bits);
    } else {
      LastSetCounts(bits, initial, calls[..|calls| - 1], i);
    }
  }

  /** The NVIC->IP and SCB->SHP bytes. `initial` and `calls` record what they held and what was set. */
  class Registers {
    const bits: nat
    const shp: array<nat>
    const ip: array<nat>
    ghost var initial: map<int, nat>
    ghost var calls: seq<Call>

    ghost predicate Shape()
    {
      IsPrioBits(bits) && shp.Length == 12 && ip.Length == 240 && shp != ip
    }

    function PriorityOf(irq: int): nat
      requires Shape() && IsIrq(irq)
      reads shp, ip
    {
      FromByte(bits, if irq < 0 then shp[irq + 12] else ip[irq])
    }

    ghost function Contents(): map<int, nat>
      requires Shape()
      reads shp, ip
    {
      map irq: int | -12 <= irq < 240 :: PriorityOf(irq)
    }

    ghost predicate Valid()
      reads this, shp, ip
    {
      Shape() && Contents() == After(bits, initial, calls)
    }

    constructor (bits: nat)
      requires IsPrioBits(bits)
      ensures Valid() && this.bits == bits && calls == [] && fresh(shp) && fresh(ip)
    {
      this.bits := bits;
      shp := new nat[12](_ => 0);
      ip := new nat[240](_ => 0);
      calls := [];
      new;
      initial := Contents();
    }

    /** NVIC_SetPriority(). */
    method SetPriority(irq: int, priority: U32)
      requires Valid() && IsIrq(irq)
      modifies this, shp, ip
      ensures Valid() && initial == old(initial) && calls == old(calls) + [Call(irq, priority)]
      ensures Contents() == old(Contents())[irq := priority % Pow2(bits)]
      ensures irq < 0 ==> shp[..] == old(shp[..])[irq + 12 := (priority % Pow2(bits)) * Pow2(8 - bits)]
                          && ip[..] == old(ip[..])
      ensures irq >= 0 ==> ip[..] == old(ip[..])[irq := (priority % Pow2(bits)) * Pow2(8 - bits)]
                           && shp[..] == old(shp[..])
    {
      ByteValue(bits, priority);
      AfterAppend(bits, initial, calls, Call(irq, priority));
      StoreByte(irq, priority);
      assert priority % Pow2(bits) == Low(priority, bits) by {
        LowIsMod(priority, bits);
      }
      calls := calls + [Call(irq, priority)];
    }

    method StoreByte(irq: int, priority: U32)
      requires Shape() && IsIrq(irq)
      modifies shp, ip
      ensures Contents() == old(Contents())[irq := Low(priority, bits)]
      ensures irq < 0 ==> shp[..] == old(shp[..])[irq + 12 := ToByte(bits, priority)] && ip[..] == old(ip[..])
      ensures irq >= 0 ==> ip[..] == old(ip[..])[irq := ToByte(bits, priority)] && shp[..] == old(shp[..])
    {
      var byte := ToByte(bits, priority);
      assert FromByte(bits, byte) == Low(priority, bits) by {
        ByteRoundTrip(bits, priority);
        LowIsMod(priority, bits);
      }
      ghost var before := Contents();
      if irq < 0 {
        ShpIndexValue(irq);
        shp[ShpIndex(irq)] := byte;
      } else {
        ip[irq] := byte;
      }
      assert PriorityOf(irq) == Low(priority, bits);
      forall q: int | IsIrq(q) && q != irq
        ensures PriorityOf(q) == before[q]
      {
      }
      assert Contents() == before[irq := Low(priority, bits)];
    }

    /** NVIC_GetPriority(). */
    method GetPriority(irq: int) returns (priority: nat)
      requires Valid() && IsIrq(irq)
      ensures irq in After(bits, initial, calls) && priority == After(bits, initial, calls)[irq]
      ensures priority == (if irq < 0 then shp[irq + 12] else ip[irq]) / Pow2(8 - bits)
    {
      PriorityInByte(bits, if irq < 0 then shp[irq + 12] else ip[irq]);
      assert irq in Contents();
      if irq < 0 {
        ShpIndexValue(irq);
        priority := FromByte(bits, shp[ShpIndex(irq)]);
      } else {
        priority := FromByte(bits, ip[irq]);
      }
    }

    /** NVIC_DecodePriority(). */
    method DecodePriority(priority: U32, priorityGroup: U32) returns (preempt: nat, sub: nat)
      requires IsPrioBits(bits)
      ensures preempt == (priority / Pow2(SubBits(bits, priorityGroup))) % Pow2(PreemptBits(bits, priorityGroup))
      ensures sub == priority % Pow2(SubBits(bits, priorityGroup))
    {
      DecodeValue(bits, priority, priorityGroup);
      LowIsMod(Shr(priority, SubBits(bits, priorityGroup)), PreemptBits(bits, priorityGroup));
      ShrIsDiv(priority, SubBits(bits, priorityGroup));
      LowIsMod(priority, SubBits(bits, priorityGroup));
      preempt := DecodePreempt(bits, priority, priorityGroup);
      sub := DecodeSub(bits, priority, priorityGroup);
    }
  }
}
