/** Moving leaves down a tree until no code is too long (gen_bitlen in zlib's trees.c). */
module LengthLimit {
  import opened Arithmetic

  /** How many codes of length 1 to `l` there are. */
  function Codes(bl: seq<nat>, l: nat): nat
    requires l < |bl|
  {
    if l == 0 then 0 else Codes(bl, l - 1) + bl[l]
  }

  /** The code space they take, in units of codes of length `limit`. */
  function Weight(bl: seq<nat>, limit: nat, l: nat): nat
    requires l <= limit && l < |bl|
  {
    if l == 0 then 0 else (MulPositive(bl[l], Pow2(limit - l)); Weight(bl, limit, l - 1) + bl[l] * Pow2(limit - l))
  }

  lemma {:induction false} CodesSame(bl: seq<nat>, bl': seq<nat>, l: nat)
    requires l < |bl| == |bl'| && forall j :: 1 <= j <= l ==> bl[j] == bl'[j]
    ensures Codes(bl, l) == Codes(bl', l)
  {
    if l > 0 {
      CodesSame(bl, bl', l - 1);
    }
  }

  lemma {:induction false} WeightSame(bl: seq<nat>, bl': seq<nat>, limit: nat, l: nat)
    requires l <= limit && l < |bl| == |bl'| && forall j :: 1 <= j <= l ==> bl[j] == bl'[j]
    ensures Weight(bl, limit, l) == Weight(bl', limit, l)
  {
    if l > 0 {
      WeightSame(bl, bl', limit, l - 1);
    }
  }

  /** One more code of length `j`. */
  lemma {:induction false} AddCode(bl: seq<nat>, j: nat, d: int, limit: nat, l: nat)
    requires 1 <= j && l <= limit && l < |bl| && j < |bl| && bl[j] + d >= 0
    ensures Codes(bl[j := bl[j] + d], l) == Codes(bl, l) + if j <= l then d else 0
    ensures Weight(bl[j := bl[j] + d], limit, l) == Weight(bl, limit, l) + if j <= l then d * Pow2(limit - j) else 0
  {
    if l > 0 {
      AddCode(bl, j, d, limit, l - 1);
      if l == j {
        MulDistribute(bl[j], d, Pow2(limit - j));
      }
    }
  }

  lemma {:induction false} NoShortCodes(bl: seq<nat>, limit: nat, l: nat)
    requires l <= limit && l < |bl| && forall j :: 1 <= j <= l ==> bl[j] == 0
    ensures Codes(bl, l) == 0 && Weight(bl, limit, l) == 0
  {
    if l > 0 {
      NoShortCodes(bl, limit, l - 1);
    }
  }

  /**
    The repair of code lengths that were cut to `limit`: each round moves one leaf down and
    one cut item up beside it, which takes one unit off the weight and two off `overflow`.
   */
  method Repair(blCount: array<nat>, limit: nat, cut: int)
    requires 1 <= limit < blCount.Length
    requires cut > 0 && 2 * Weight(blCount[..], limit, limit) == 2 * Pow2(limit) + cut
    requires Codes(blCount[..], limit) <= Pow2(limit) && 2 * blCount[limit] >= cut
    modifies blCount
    ensures Weight(blCount[..], limit, limit) == Pow2(limit)
    ensures Codes(blCount[..], limit) == old(Codes(blCount[..], limit))
    ensures blCount[0] == old(blCount[0])
    ensures forall j :: limit < j < blCount.Length ==> blCount[j] == old(blCount[j])
    ensures 2 * old(blCount[limit]) > cut ==> blCount[limit] > 0
  {
    hide Weight, Codes, Pow2;
    var overflow := cut;
    while overflow > 0
      invariant overflow >= 0
      invariant 2 * Weight(blCount[..], limit, limit) == 2 * Pow2(limit) + overflow
      invariant Codes(blCount[..], limit) == old(Codes(blCount[..], limit)) && 2 * blCount[limit] >= overflow
      invariant blCount[0] == old(blCount[0]) && (2 * old(blCount[limit]) > cut ==> 2 * blCount[limit] > overflow)
      invariant forall j :: limit < j < blCount.Length ==> blCount[j] == old(blCount[j])
    {
      ghost var bl := blCount[..];
      var bits: int := limit - 1;
      MovableLeaf(bl, limit);
      while blCount[bits] == 0
        invariant 0 < bits < limit
        invariant forall j :: bits < j < limit ==> blCount[j] == 0
        invariant exists j :: 1 <= j <= bits && blCount[j] != 0
        decreases bits
      {
        bits := bits - 1;
      }
      MoveLeaf(bl, limit, bits);
      blCount[bits] := blCount[bits] - 1;
      blCount[bits + 1] := blCount[bits + 1] + 2;
      blCount[limit] := blCount[limit] - 1;
      assert blCount[..] == Moved(bl, limit, bits);
      overflow := overflow - 2;
    }
  }

  /** If the codes take too much space, some of them are shorter than the limit. */
  lemma MovableLeaf(bl: seq<nat>, limit: nat)
    requires 1 <= limit < |bl| && Weight(bl, limit, limit) > Pow2(limit) >= Codes(bl, limit)
    ensures exists j :: 1 <= j <= limit - 1 && bl[j] != 0
  {
    assert Pow2(0) == 1;
    if forall j :: 1 <= j <= limit - 1 ==> bl[j] == 0 {
      NoShortCodes(bl, limit, limit - 1);
    }
  }

  /** The counts after moving one leaf of length `bits` down and one cut item beside it. */
  function Moved(bl: seq<nat>, limit: nat, bits: nat): seq<nat>
    requires 1 <= bits < limit < |bl| && bl[bits] > 0 && bl[limit] > 0
  {
    var b1 := bl[bits := bl[bits] - 1];
    var b2 := b1[bits + 1 := b1[bits + 1] + 2];
    b2[limit := b2[limit] - 1]
  }

  lemma MoveLeaf(bl: seq<nat>, limit: nat, bits: nat)
    requires 1 <= bits < limit < |bl| && bl[bits] > 0 && bl[limit] > 0
    ensures Codes(Moved(bl, limit, bits), limit) == Codes(bl, limit)
    ensures Weight(Moved(bl, limit, bits), limit, limit) == Weight(bl, limit, limit) - 1
    ensures Moved(bl, limit, bits)[limit] >= bl[limit] - 1
  {
    hide Weight, Codes;
    var b1 := bl[bits := bl[bits] - 1];
    var b2 := b1[bits + 1 := b1[bits + 1] + 2];
    AddCode(bl, bits, -1, limit, limit);
    AddCode(b1, bits + 1, 2, limit, limit);
    AddCode(b2, limit, -1, limit, limit);
    assert Pow2(0) == 1;
  }
}
