/** The packet corrupter the client runs every received datagram through.
    `Math.random()` is replaced by rolls handed in by the caller, each a
    value in [0, 1). */
module Impairment {
  import opened JavaLang

  const DATA_OFFSET := 4

  /** `java.net.DatagramPacket` as the transfer code uses it: a backing array
      and how many of its bytes, from offset 0, make up the datagram. */
  class Datagram {
    var data: array<SByte>
    var length: int

    ghost predicate Valid()
      reads this
    {
      0 <= length <= data.Length
    }

    /** `new DatagramPacket(buf, length)`. */
    constructor (buf: array<SByte>, length: int)
      requires 0 <= length <= buf.Length
      ensures data == buf && this.length == length
    {
      data := buf;
      this.length := length;
    }

    /** `setData(buf)`: the whole of `buf` becomes the datagram. */
    method SetData(buf: array<SByte>)
      modifies this
      ensures data == buf && length == buf.Length
    {
      data := buf;
      length := buf.Length;
    }
  }

  /** The damage chance the constructor stores: its argument forced into
      [0, 1]. */
  function Clamp(dmgIn: real): (r: real)
    ensures 0.0 <= r <= 1.0
  {
    if dmgIn < 0.0 then 0.0 else if dmgIn > 1.0 then 1.0 else dmgIn
  }

  /** Clamping keeps a chance that is already in [0, 1] and otherwise moves
      it to the nearest end: no point of [0, 1] is closer to the argument. */
  lemma ClampNearest(dmgIn: real, p: real)
    requires 0.0 <= p <= 1.0
    ensures 0.0 <= dmgIn <= 1.0 ==> Clamp(dmgIn) == dmgIn
    ensures Abs(Clamp(dmgIn) - dmgIn) <= Abs(p - dmgIn)
  {
  }

  function Abs(x: real): real
  {
    if x < 0.0 then -x else x
  }

  /** How many bytes a damaged datagram gets: three for a second roll up to
      0.2, two up to 0.5, otherwise one. */
  function NumChanges(roll: real): (n: nat)
    ensures 1 <= n <= 3
  {
    if roll <= 0.2 then 3 else if roll <= 0.5 then 2 else 1
  }

  /** A lower roll never asks for fewer changes. */
  lemma NumChangesAntitone(r1: real, r2: real)
    requires r1 <= r2
    ensures NumChanges(r1) >= NumChanges(r2)
  {
  }

  /** The index one roll picks: `(int) (roll * messageLength) + messageOffset`. */
  function IndexFromRoll(roll: real, messageLength: int): int
  {
    Truncate(roll * messageLength as real) + DATA_OFFSET
  }

  /** The sign of a product of non-negative reals. */
  lemma MulSigns(a: real, b: real)
    requires 0.0 <= a && 0.0 <= b
    ensures 0.0 <= a * b
    ensures 0.0 < a && 0.0 < b ==> 0.0 < a * b
  {
  }

  /** A roll in [0, 1) picks a payload index when the datagram is longer than
      its header, and otherwise an index between its length and the header's
      end. */
  lemma IndexFromRollRange(roll: real, messageLength: int)
    requires 0.0 <= roll < 1.0
    ensures var r := IndexFromRoll(roll, messageLength);
      && (messageLength >= 1 ==> DATA_OFFSET <= r < DATA_OFFSET + messageLength)
      && (messageLength <= 0 ==> DATA_OFFSET + messageLength <= r <= DATA_OFFSET)
  {
    var x := roll * messageLength as real;
    var m := messageLength as real;
    assert x == m - (1.0 - roll) * m;
    if m >= 1.0 {
      MulSigns(roll, m);
      MulSigns(1.0 - roll, m);
    } else {
      MulSigns(roll, -m);
      MulSigns(1.0 - roll, -m);
    }
  }

  /** The index each roll would pick, in order. */
  function Candidates(rolls: seq<real>, messageLength: int): (r: seq<int>)
    ensures |r| == |rolls|
    ensures forall k :: 0 <= k < |rolls| ==> r[k] == IndexFromRoll(rolls[k], messageLength)
  {
    seq(|rolls|, k requires 0 <= k < |rolls| => IndexFromRoll(rolls[k], messageLength))
  }

  /** The distinct values of `s` in the order of their first occurrence. */
  function FirstOccurrences(s: seq<int>): (r: seq<int>)
    ensures |r| <= |s|
  {
    if s == [] then []
    else
      var r := FirstOccurrences(s[..|s| - 1]);
      if s[|s| - 1] in r then r else r + [s[|s| - 1]]
  }

  /** The list of first occurrences holds every value of `s` exactly once. */
  lemma {:induction false} FirstOccurrencesSpec(s: seq<int>)
    ensures Distinct(FirstOccurrences(s))
    ensures forall x :: x in FirstOccurrences(s) <==> x in s
  {
    if s != [] {
      var init := s[..|s| - 1];
      FirstOccurrencesSpec(init);
      assert s == init + [s[|s| - 1]];
    }
  }

  /** One more element either repeats an earlier one or is listed last. */
  lemma FirstOccurrencesSnoc(s: seq<int>, n: nat)
    requires n < |s|
    ensures FirstOccurrences(s[..n + 1]) ==
      if s[n] in FirstOccurrences(s[..n]) then FirstOccurrences(s[..n])
      else FirstOccurrences(s[..n]) + [s[n]]
  {
    assert s[..n + 1][..n] == s[..n];
  }

  /** Reading more of `s` only extends the list of first occurrences. */
  lemma {:induction false} FirstOccurrencesPrefix(s: seq<int>, m: nat)
    requires m <= |s|
    ensures |FirstOccurrences(s[..m])| <= |FirstOccurrences(s)|
    ensures FirstOccurrences(s)[..|FirstOccurrences(s[..m])|] == FirstOccurrences(s[..m])
  {
    if m < |s| {
      var init := s[..|s| - 1];
      assert init[..m] == s[..m];
      FirstOccurrencesPrefix(init, m);
    } else {
      assert s[..m] == s;
    }
  }

  /** The inner loop of the index selection: whether the index just drawn
      into slot `i` repeats one of the slots before it. */
  method Repeats(byteToChange: array<int>, i: nat) returns (repeated: bool)
    requires i < byteToChange.Length
    ensures repeated <==> byteToChange[i] in byteToChange[..i]
  {
    var j := 0;
    while j < i
      invariant 0 <= j <= i
      invariant forall k :: 0 <= k < j ==> byteToChange[k] != byteToChange[i]
    {
      if byteToChange[j] == byteToChange[i] {
        return true;
      }
      j := j + 1;
    }
    return false;
  }

  /** The indices `touchPacket` settles on: the first `numChanges` distinct
      candidates, or `None` when the rolls run out first. */
  method ChooseIndices(numChanges: nat, messageLength: int, rolls: seq<real>)
    returns (found: bool, byteToChange: array<int>)
    ensures byteToChange.Length == numChanges
    ensures found <==> numChanges <= |FirstOccurrences(Candidates(rolls, messageLength))|
    ensures found ==> byteToChange[..] == FirstOccurrences(Candidates(rolls, messageLength))[..numChanges]
  {
    ghost var cands := Candidates(rolls, messageLength);
    byteToChange := new int[numChanges];
    var next := 0;
    var i: int := 0;
    ghost var chosen: seq<int> := [];
    while i < numChanges
      invariant 0 <= i <= numChanges && 0 <= next <= |rolls|
      invariant chosen == FirstOccurrences(cands[..next]) && |chosen| == i
      invariant forall k :: 0 <= k < i ==> byteToChange[k] == chosen[k]
      decreases |rolls| - next
    {
      if next == |rolls| {
        assert cands[..next] == cands;
        return false, byteToChange;
      }
      byteToChange[i] := IndexFromRoll(rolls[next], messageLength);
      FirstOccurrencesSnoc(cands, next);
      ghost var v := byteToChange[i];
      next := next + 1;
      ghost var again := false;
      if i > 0 {
        var repeated := Repeats(byteToChange, i);
        if repeated {
          // `i--`, which the loop's `i++` undoes: the slot is drawn again
          i := i - 1;
          again := true;
        }
      }
      i := i + 1;
      assert again <==> v in chosen;
      chosen := if again then chosen else chosen + [v];
    }
    assert byteToChange[..] == chosen;
    FirstOccurrencesPrefix(cands, next);
    found := true;
  }

  /** Every listed position lies inside an array of length `n`. */
  predicate InRange(indices: seq<int>, n: int)
  {
    forall k :: 0 <= k < |indices| ==> 0 <= indices[k] < n
  }

  /** `(byte) (b + 1)`: the byte raised by one, wrapping from 127 to -128;
      it always differs from `b`. */
  function Increment(b: SByte): (r: SByte)
    ensures r != b
    ensures b < 127 ==> r == b + 1
    ensures b == 127 ==> r == -128
  {
    ToByte(b as int + 1)
  }

  /** `data` with the byte at each listed position raised by one, wrapping
      as a Java `byte`, one position after the other. */
  function Bumped(data: seq<SByte>, indices: seq<int>): (r: seq<SByte>)
    requires InRange(indices, |data|)
    ensures |r| == |data|
  {
    if indices == [] then data
    else
      var last := indices[|indices| - 1];
      var d := Bumped(data, indices[..|indices| - 1]);
      d[last := Increment(d[last])]
  }

  /** Raising one more listed position updates that one byte. */
  lemma BumpedStep(data: seq<SByte>, indices: seq<int>, i: nat)
    requires i < |indices| && InRange(indices[..i], |data|) && 0 <= indices[i] < |data|
    ensures InRange(indices[..i + 1], |data|)
    ensures var d := Bumped(data, indices[..i]);
      Bumped(data, indices[..i + 1]) == d[indices[i] := Increment(d[indices[i]])]
  {
    var s := indices[..i + 1];
    assert s[..i] == indices[..i];
    assert InRange(s, |data|) by {
      assert s == indices[..i] + [indices[i]];
    }
    var d := Bumped(data, indices[..i]);
    assert Bumped(data, s) == d[s[i] := Increment(d[s[i]])];
  }

  /** With distinct positions, each listed byte is raised exactly once and
      every other byte is left alone. */
  lemma {:induction false} BumpedAt(data: seq<SByte>, indices: seq<int>, p: int)
    requires InRange(indices, |data|)
    requires Distinct(indices)
    requires 0 <= p < |data|
    ensures Bumped(data, indices)[p] == if p in indices then Increment(data[p]) else data[p]
  {
    if indices != [] {
      var init := indices[..|indices| - 1];
      assert indices == init + [indices[|indices| - 1]];
      BumpedAt(data, init, p);
    }
  }

  /** With distinct positions, exactly the listed bytes differ afterwards,
      so exactly `|indices|` bytes change. */
  lemma BumpedChangesExactly(data: seq<SByte>, indices: seq<int>)
    requires InRange(indices, |data|)
    requires Distinct(indices)
    ensures (set p | 0 <= p < |data| && Bumped(data, indices)[p] != data[p]) == set x | x in indices
    ensures |set p | 0 <= p < |data| && Bumped(data, indices)[p] != data[p]| == |indices|
  {
    var r := Bumped(data, indices);
    forall p | 0 <= p < |data|
      ensures r[p] != data[p] <==> p in indices
    {
      BumpedAt(data, indices, p);
    }
    assert (set p | 0 <= p < |data| && r[p] != data[p]) == set x | x in indices;
    DistinctCard(indices);
  }

  /** How many leading positions of `s` lie inside an array of length `n`. */
  function InRangePrefix(s: seq<int>, n: int): (r: nat)
    ensures r <= |s| && InRange(s[..r], n)
    ensures r < |s| ==> !(0 <= s[r] < n)
  {
    if s == [] || !(0 <= s[0] < n) then 0
    else
      var r := InRangePrefix(s[1..], n);
      assert s[..r + 1] == [s[0]] + s[1..][..r];
      r + 1
  }

  /** A prefix of positions inside the array that ends at the first one
      outside it, or at the end, is the longest such prefix. */
  lemma InRangePrefixAt(s: seq<int>, n: int, i: nat)
    requires i <= |s| && InRange(s[..i], n)
    requires i < |s| ==> !(0 <= s[i] < n)
    ensures InRangePrefix(s, n) == i
  {
  }

  /** What `touchPacket` does to a datagram. */
  datatype Touch =
    | Untouched
    | Corrupted(indices: seq<int>)
    | OutOfRolls  // the rolls ran out while the source would keep drawing
    | OutOfBounds(indices: seq<int>, applied: nat)  // an index past the array: the increment throws

  /** The decision `touchPacket` takes for a datagram whose backing array
      holds `data` and whose length is `length`. The terminator test compares
      the whole backing array with `{0}`. */
  function Decide(data: seq<SByte>, length: int, dmgChance: real,
                  damageRoll: real, countRoll: real, indexRolls: seq<real>): Touch
  {
    if data == [0] then Untouched
    else if !(dmgChance != 0.0 && damageRoll <= dmgChance) then Untouched
    else
      var picks := FirstOccurrences(Candidates(indexRolls, length - DATA_OFFSET));
      var n := NumChanges(countRoll);
      if |picks| < n then OutOfRolls
      else
        var applied := InRangePrefix(picks[..n], |data|);
        if applied < n then OutOfBounds(picks[..n], applied) else Corrupted(picks[..n])
  }

  /** Whatever the rolls, a decision only names positions inside the
      backing array, up to the one where the increment would throw. */
  lemma DecideFits(data: seq<SByte>, length: int, dmgChance: real,
                   damageRoll: real, countRoll: real, indexRolls: seq<real>)
    ensures var t := Decide(data, length, dmgChance, damageRoll, countRoll, indexRolls);
      && (t.Corrupted? ==> InRange(t.indices, |data|))
      && (t.OutOfBounds? ==> t.applied <= |t.indices| && InRange(t.indices[..t.applied], |data|))
  {
  }

  /** The backing array once `touchPacket` has carried out decision `t`:
      raised at the chosen positions, or at those before the position where
      the increment threw. */
  function TouchedData(data: seq<SByte>, t: Touch): (r: seq<SByte>)
    requires t.Corrupted? ==> InRange(t.indices, |data|)
    requires t.OutOfBounds? ==> t.applied <= |t.indices| && InRange(t.indices[..t.applied], |data|)
    ensures |r| == |data|
  {
    match t
    case Corrupted(indices) => Bumped(data, indices)
    case OutOfBounds(indices, applied) => Bumped(data, indices[..applied])
    case _ => data
  }

  /** What a corruption picks: one to three distinct positions, as many as
      the second roll asks for, all inside the backing array, and never in
      the header when the datagram is longer than the header. A datagram
      is left alone when it is the terminator, the chance is zero or the
      first roll exceeds the chance, and an index can only fall outside a
      backing array no longer than the header. */
  lemma DecideShape(data: seq<SByte>, length: int, dmgChance: real,
                    damageRoll: real, countRoll: real, indexRolls: seq<real>)
    requires forall k :: 0 <= k < |indexRolls| ==> 0.0 <= indexRolls[k] < 1.0
    requires 0 <= length <= |data|
    ensures var t := Decide(data, length, dmgChance, damageRoll, countRoll, indexRolls);
      && (data == [0] || dmgChance == 0.0 || damageRoll > dmgChance ==> t == Untouched)
      && (t.Corrupted? ==>
        && |t.indices| == NumChanges(countRoll)
        && Distinct(t.indices)
        && InRange(t.indices, |data|)
        && (length > DATA_OFFSET ==>
              forall k :: 0 <= k < |t.indices| ==> DATA_OFFSET <= t.indices[k] < length))
      && (t.OutOfBounds? ==>
        && t.applied < |t.indices|
        && InRange(t.indices[..t.applied], |data|)
        && |data| <= DATA_OFFSET)
  {
    var t := Decide(data, length, dmgChance, damageRoll, countRoll, indexRolls);
    if t.Corrupted? || t.OutOfBounds? {
      var cands := Candidates(indexRolls, length - DATA_OFFSET);
      var picks := FirstOccurrences(cands);
      assert |picks| >= NumChanges(countRoll) && t.indices == picks[..NumChanges(countRoll)];
      FirstOccurrencesSpec(cands);
      forall k | 0 <= k < |t.indices|
        ensures |data| > DATA_OFFSET ==> 0 <= t.indices[k] < |data|
        ensures length > DATA_OFFSET ==> DATA_OFFSET <= t.indices[k] < length
      {
        assert t.indices[k] == picks[k];
        assert picks[k] in cands;
        var j :| 0 <= j < |cands| && cands[j] == picks[k];
        IndexFromRollRange(indexRolls[j], length - DATA_OFFSET);
      }
    }
  }

  /** The increment loop of `touchPacket`: raises the byte at each listed
      position by one, in order, and stops at the first position outside the
      array, where the source throws. `applied` is how many it raised. */
  method IncrementAt(packetData: array<SByte>, byteToChange: seq<int>) returns (applied: nat)
    modifies packetData
    ensures applied == InRangePrefix(byteToChange, packetData.Length)
    ensures packetData[..] == Bumped(old(packetData[..]), byteToChange[..applied])
  {
    var i := 0;
    while i < |byteToChange|
      invariant 0 <= i <= |byteToChange|
      invariant InRange(byteToChange[..i], packetData.Length)
      invariant packetData[..] == Bumped(old(packetData[..]), byteToChange[..i])
    {
      if !(0 <= byteToChange[i] < packetData.Length) {
        // the increment throws `ArrayIndexOutOfBoundsException`
        InRangePrefixAt(byteToChange, packetData.Length, i);
        return i;
      }
      BumpedStep(old(packetData[..]), byteToChange, i);
      packetData[byteToChange[i]] := Increment(packetData[byteToChange[i]]);
      i := i + 1;
    }
    assert byteToChange[..i] == byteToChange;
    InRangePrefixAt(byteToChange, packetData.Length, i);
    return i;
  }

  /** The corrupter. */
  class Gremlin {
    var dmgChance: real

    /** `new Gremlin(dmgIn)`. */
    constructor (dmgIn: real)
      ensures dmgChance == Clamp(dmgIn)
    {
      if dmgIn < 0.0 {
        dmgChance := 0.0;
      } else if dmgIn > 1.0 {
        dmgChance := 1.0;
      } else {
        dmgChance := dmgIn;
      }
    }

    /** `touchPacket(packetIn)`: corrupts the datagram in place and returns
        the same object. `damageRoll`, `countRoll` and `indexRolls` are the
        values of the successive `Math.random()` calls. */
    method TouchPacket(packetIn: Datagram, damageRoll: real, countRoll: real, indexRolls: seq<real>)
      returns (packetOut: Datagram, touch: Touch)
      requires packetIn.Valid()
      modifies packetIn, packetIn.data
      ensures packetOut == packetIn && packetOut.data == old(packetIn.data) && packetOut.Valid()
      ensures touch == Decide(old(packetIn.data[..]), old(packetIn.length), dmgChance,
                              damageRoll, countRoll, indexRolls)
      ensures touch.Corrupted? ==>
        && InRange(touch.indices, packetOut.data.Length)
        && packetOut.data[..] == Bumped(old(packetIn.data[..]), touch.indices)
        && packetOut.length == packetOut.data.Length
      ensures touch.OutOfBounds? ==>
        && touch.applied < |touch.indices|
        && InRange(touch.indices[..touch.applied], packetOut.data.Length)
        && packetOut.data[..] == Bumped(old(packetIn.data[..]), touch.indices[..touch.applied])
        && packetOut.length == old(packetIn.length)
      ensures touch.Untouched? || touch.OutOfRolls? ==>
        packetOut.data[..] == old(packetIn.data[..]) && packetOut.length == old(packetIn.length)
    {
      packetOut := packetIn;
      var packetData := packetIn.data;
      var messageOffset := DATA_OFFSET;
      var messageLength := packetIn.length - messageOffset;
      ghost var original := packetData[..];
      if packetData[..] == [0] {
        return packetOut, Untouched;
      }
      if !(dmgChance != 0.0 && damageRoll <= dmgChance) {
        return packetOut, Untouched;
      }
      var numChanges := NumChanges(countRoll);
      var found, byteToChange := ChooseIndices(numChanges, messageLength, indexRolls);
      if !found {
        return packetOut, OutOfRolls;
      }
      var applied := IncrementAt(packetData, byteToChange[..]);
      if applied < numChanges {
        return packetOut, OutOfBounds(byteToChange[..], applied);
      }
      assert byteToChange[..][..applied] == byteToChange[..];
      touch := Corrupted(byteToChange[..]);
      packetOut.SetData(packetData);
    }
  }
}
