/**
 Holding the per-frame clear of the mapping-frame block over page loads
 (_hold_tx_block and the end of download_overlay in tools/dial_tikrnl_drive.py).
 */
module BlockHold {
  import opened Options

  const V90D := 0x026A
  const V90A := 0x026B

  /** Whether the clear is to be held while a page is resident. */
  predicate Holding(holdD: bool, holdA: bool, resident: int) {
    (resident == V90D && (holdD || holdA)) || (resident == V90A && holdA)
  }

  class Card {
    const holdD: bool
    const holdA: bool
    const overlays: set<int>      // the pages there are images of
    var clear: int
    var resident: int
    var savedD: Option<int>
    var savedA: Option<int>

    /** The instruction the kernel booted with. */
    ghost const original: int

    /** The word is zero exactly while it is to be held, and then there is one
        saved copy, the original. */
    ghost predicate Valid()
      reads this
    {
      && clear == (if Holding(holdD, holdA, resident) then 0 else original)
      && savedD == (if resident == V90D && (holdD || holdA) then Some(original) else None)
      && savedA == (if resident == V90A && holdA then Some(original) else None)
    }

    constructor (holdD: bool, holdA: bool, overlays: set<int>, clear: int, resident: int)
      requires resident != V90D && resident != V90A
      ensures Valid() && original == clear && this.resident == resident
      ensures this.holdD == holdD && this.holdA == holdA && this.overlays == overlays
    {
      this.holdD, this.holdA, this.overlays := holdD, holdA, overlays;
      this.clear, this.resident := clear, resident;
      savedD, savedA, original := None, None, clear;
    }

    method HoldTxBlock(id: int)
      requires Valid() && (holdD || holdA)
      modifies this`clear, this`savedD, this`savedA
      ensures clear == if Holding(holdD, holdA, id) then 0 else original
      ensures savedD == if id == V90D then Some(original) else None
      ensures savedA == if id == V90A && holdA then Some(original) else None
    {
      if id == V90D && savedA.Some? && resident == V90A {
        clear, savedA := savedA.value, None;
      }
      if id == V90D {
        if savedD == None {
          savedD := Some(clear);
          clear := 0;
        }
      } else if savedD.Some? && resident == V90D {
        clear, savedD := savedD.value, None;
      }
      if id == V90A && holdA {
        if savedA == None {
          savedA := Some(clear);
          clear := 0;
        }
      } else if savedA.Some? && resident == V90A {
        clear, savedA := savedA.value, None;
      }
    }

    /** A page load that does not itself write the word; a page there is no
        image of is not served, and nothing changes. */
    method DownloadOverlay(id: int) returns (served: bool)
      requires Valid()
      modifies this
      ensures Valid() && (served <==> id in overlays)
      ensures resident == if served then id else old(resident)
      ensures served && id == 0x026B && holdA ==> clear == 0
      ensures served && id == 0x026A && (holdA || holdD) ==> clear == 0
      ensures served && id != 0x026A && id != 0x026B ==> clear == original
      ensures served && id == 0x026B && !holdA ==> clear == original
    {
      if id !in overlays {
        return false;
      }
      if holdD || holdA {
        HoldTxBlock(id);
      }
      resident := id;
      return true;
    }

    /** Any run of page loads leaves the word as the last page served demands. */
    method DownloadAll(ids: seq<int>)
      requires Valid()
      modifies this
      ensures Valid() && resident == LastServed(overlays, ids, old(resident))
    {
      for i := 0 to |ids|
        invariant Valid() && resident == LastServed(overlays, ids[..i], old(resident))
      {
        var served := DownloadOverlay(ids[i]);
        assert ids[..i + 1][..i] == ids[..i];
      }
      assert ids[..|ids|] == ids;
    }
  }

  /** The last page of a run that there is an image of. */
  function LastServed(overlays: set<int>, ids: seq<int>, resident: int): int {
    if ids == [] then resident
    else if ids[|ids| - 1] in overlays then ids[|ids| - 1]
    else LastServed(overlays, ids[..|ids| - 1], resident)
  }

  /** It is the one after which no other was served, or, if none was, the page
      that was resident before. */
  lemma {:induction false} LastServedExactly(overlays: set<int>, ids: seq<int>, resident: int, i: nat)
    ensures i < |ids| && ids[i] in overlays && (forall j :: i < j < |ids| ==> ids[j] !in overlays) ==>
              LastServed(overlays, ids, resident) == ids[i]
    ensures (forall j :: 0 <= j < |ids| ==> ids[j] !in overlays) ==> LastServed(overlays, ids, resident) == resident
  {
    if ids != [] {
      LastServedExactly(overlays, ids[..|ids| - 1], resident, i);
    }
  }

  /** The setting for page 14 decides about page 14 exactly when the setting for
      page 13 is off: with page 13's hold on, page 14 is held regardless. */
  lemma Page14Setting(holdA: bool)
    ensures (forall holdD :: Holding(holdD, holdA, V90D) <==> holdD) <==> !holdA
  {
    assert holdA ==> Holding(false, holdA, V90D);
  }
}
