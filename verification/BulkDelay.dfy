/**
 The near/far delay line served to page 14 (_service_v90d_bulk of
 tools/dial_tikrnl_drive.py).
 */
module BulkDelay {
  import opened Arithmetic
  import opened Bytes
  import opened Options

  const SEED_BASE := 0x0025
  const SEED_SPAN := 0x0050
  const SEED_CEILING := 0x0B00
  const WORDS := 0x4000

  const LENGTH_WORDS := {0x3FBC, 0x3FBD, 0x3608, 0x3609}
  const PAIR_WORDS := {0x3F36, 0x3F37, 0x3F38, 0x3F39}

  type Pair = (Word, Word)

  const SILENCE: Pair := (0, 0)

  datatype Lengths = Lengths(near: nat, far: nat)

  /** The two delays: the firmware's word, or an override, clamped. */
  function Delays(word: Word, near: Option<Word>, far: Option<Word>): (d: Lengths)
    ensures 1 <= d.near <= d.far <= SEED_CEILING
  {
    var n := Max(1, Min(if near.Some? then near.value else SEED_BASE + word, SEED_CEILING));
    Lengths(n, Max(n, Min(if far.Some? then far.value else n + SEED_SPAN, SEED_CEILING)))
  }

  /** With no override and any word the firmware gives, far is near plus the
      span until the ceiling cuts off first far and then near. */
  lemma DefaultDelays(word: Word)
    ensures var d := Delays(word, None, None);
            && (word <= 0xA8B ==> d == Lengths(0x25 + word, 0x75 + word))
            && (0xA8B <= word <= 0xADB ==> d == Lengths(0x25 + word, 0xB00))
            && (0xADB <= word ==> d == Lengths(0xB00, 0xB00))
  {
  }

  /** An override stands for the seeded near, or for the spanned far, within the
      bounds near has, or far has once near is known. */
  lemma OverriddenDelays(word: Word, near: Option<Word>, far: Option<Word>)
    ensures var d := Delays(word, near, far);
            && (near.Some? && 1 <= near.value <= SEED_CEILING ==> d.near == near.value)
            && (near.Some? && near.value == 0 ==> d.near == 1)
            && (near.Some? && SEED_CEILING < near.value ==> d.near == SEED_CEILING)
            && (near.None? ==> d.near == Delays(word, None, None).near)
            && (far.Some? && d.near <= far.value <= SEED_CEILING ==> d.far == far.value)
            && (far.Some? && far.value < d.near ==> d.far == d.near)
            && (far.Some? && SEED_CEILING < far.value ==> d.far == SEED_CEILING)
            && (far.None? ==> d.far == if d.near + SEED_SPAN <= SEED_CEILING then d.near + SEED_SPAN else SEED_CEILING)
  {
  }

  // ----- a delay line

  /** The pair supplied at service k; silence before the first. */
  function Supplied(supplied: seq<Pair>, k: int): Pair {
    if 0 <= k < |supplied| then supplied[k] else SILENCE
  }

  /** The last `far` pairs, oldest first. */
  function Line(supplied: seq<Pair>, far: nat): (s: seq<Pair>)
    ensures |s| == far
  {
    seq(far, i requires 0 <= i < far => Supplied(supplied, |supplied| - far + i))
  }

  function Silent(far: nat): (s: seq<Pair>)
    ensures |s| == far
  {
    seq(far, _ => SILENCE)
  }

  lemma LineAt(supplied: seq<Pair>, far: nat, i: nat)
    requires i < far
    ensures Line(supplied, far)[i] == Supplied(supplied, |supplied| - far + i)
  {
  }

  /** One more pair pushes the oldest one out. */
  lemma LineAdvances(supplied: seq<Pair>, far: nat, p: Pair)
    requires 0 < far
    ensures Line(supplied + [p], far) == Line(supplied, far)[1..] + [p]
  {
    var before, after := Line(supplied, far), Line(supplied + [p], far);
    forall i | 0 <= i < far
      ensures after[i] == (before[1..] + [p])[i]
    {
      LineAt(supplied + [p], far, i);
      if i < far - 1 {
        LineAt(supplied, far, i + 1);
      }
    }
  }

  lemma LineStartsSilent(far: nat)
    ensures Line([], far) == Silent(far)
  {
    forall i | 0 <= i < far
      ensures Line([], far)[i] == SILENCE
    {
      LineAt([], far, i);
    }
  }

  class Card {
    const dm: array<Word>
    const nearOverride: Option<Word>
    const farOverride: Option<Word>
    var resident: bool
    var lengths: Option<Lengths>
    var pairs: seq<Pair>

    /** Pairs taken since the lengths last changed. */
    ghost var supplied: seq<Pair>

    ghost predicate Valid()
      reads this
    {
      && dm.Length == WORDS
      && (lengths.None? ==> pairs == [])
      && (lengths.Some? ==>
            && 1 <= lengths.value.near <= lengths.value.far <= SEED_CEILING
            && pairs == Line(supplied, lengths.value.far))
    }

    constructor (near: Option<Word>, far: Option<Word>)
      ensures Valid() && !resident && lengths == None
      ensures nearOverride == near && farOverride == far && fresh(dm)
    {
      dm := new Word[WORDS](_ => 0);
      nearOverride, farOverride := near, far;
      resident, lengths, pairs, supplied := false, None, [], [];
    }

    /** Page 14 loaded, again or anew, or left: either way the line is forgotten. */
    method Load(page14: bool)
      requires Valid()
      modifies this
      ensures Valid() && resident == page14
      ensures lengths == if old(resident) || page14 then None else old(lengths)
    {
      if resident || page14 {
        lengths, pairs := None, [];
      }
      resident := page14;
    }

    /** One service, whatever the firmware has stored since the last.  An active
        service returns the pairs of `near` and `far` active services ago. */
    method ServiceBulk()
      requires Valid()
      modifies this, dm
      ensures Valid() && resident == old(resident)
      ensures !resident ==> lengths == old(lengths) && supplied == old(supplied) && dm[..] == old(dm[..])
      ensures resident ==>
                var d := Delays(old(dm[0x3F04]), nearOverride, farOverride);
                var line := if old(lengths) == Some(d) then old(supplied) else [];
                var active := old(dm[0x3FC1]) / 0x400 % 2 == 1;
                && lengths == Some(d)
                && dm[0x3FBC] == dm[0x3608] == d.near && dm[0x3FBD] == dm[0x3609] == d.far
                && supplied == (if active then line + [(old(dm[0x3FBE]), old(dm[0x3FBF]))] else line)
                && (active ==>
                      && (dm[0x3F36], dm[0x3F37]) == Supplied(line, |line| - d.near)
                      && (dm[0x3F38], dm[0x3F39]) == Supplied(line, |line| - d.far))
                && forall a :: 0 <= a < WORDS && a !in LENGTH_WORDS && (a in PAIR_WORDS ==> !active)
                               ==> dm[a] == old(dm[a])
    {
      hide Line, Delays, Supplied;
      if !resident {
        return;
      }
      var d := Delays(dm[0x3F04], nearOverride, farOverride);
      Resize(d);
      Publish(d);
      if dm[0x3FC1] / 0x400 % 2 == 1 {
        Exchange(d);
      }
    }

    /** A change of length starts a silent line. */
    method Resize(d: Lengths)
      requires Valid() && 1 <= d.near <= d.far <= SEED_CEILING
      modifies this`lengths, this`pairs, this`supplied
      ensures Valid() && lengths == Some(d) && supplied == if old(lengths) == Some(d) then old(supplied) else []
    {
      hide Line;
      if lengths != Some(d) {
        lengths, pairs, supplied := Some(d), Silent(d.far), [];
        LineStartsSilent(d.far);
      }
    }

    method Exchange(d: Lengths)
      requires Valid() && lengths == Some(d)
      modifies this`pairs, this`supplied, dm
      ensures Valid() && supplied == old(supplied) + [(old(dm[0x3FBE]), old(dm[0x3FBF]))]
      ensures (dm[0x3F36], dm[0x3F37]) == Supplied(old(supplied), |old(supplied)| - d.near)
      ensures (dm[0x3F38], dm[0x3F39]) == Supplied(old(supplied), |old(supplied)| - d.far)
      ensures forall a :: 0 <= a < WORDS && a !in PAIR_WORDS ==> dm[a] == old(dm[a])
    {
      hide Line, Supplied;
      LineAt(supplied, d.far, d.far - d.near);
      LineAt(supplied, d.far, 0);
      var nearPair, farPair := pairs[|pairs| - d.near], pairs[0];
      var pair := (dm[0x3FBE], dm[0x3FBF]);
      LineAdvances(supplied, d.far, pair);
      pairs, supplied := pairs[1..] + [pair], supplied + [pair];
      Return(nearPair, farPair);
    }

    /** Both copies of the saved lengths. */
    method Publish(d: Lengths)
      requires dm.Length == WORDS && d.near < 0x10000 && d.far < 0x10000
      modifies dm
      ensures dm[0x3FBC] == dm[0x3608] == d.near && dm[0x3FBD] == dm[0x3609] == d.far
      ensures forall a :: 0 <= a < WORDS && a !in LENGTH_WORDS ==> dm[a] == old(dm[a])
    {
      dm[0x3FBC], dm[0x3608] := d.near, d.near;
      dm[0x3FBD], dm[0x3609] := d.far, d.far;
    }

    method Return(near: Pair, far: Pair)
      requires dm.Length == WORDS
      modifies dm
      ensures (dm[0x3F36], dm[0x3F37]) == near && (dm[0x3F38], dm[0x3F39]) == far
      ensures forall a :: 0 <= a < WORDS && a !in PAIR_WORDS ==> dm[a] == old(dm[a])
    {
      dm[0x3F36], dm[0x3F37] := near.0, near.1;
      dm[0x3F38], dm[0x3F39] := far.0, far.1;
    }
  }
}
