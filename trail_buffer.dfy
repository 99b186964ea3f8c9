/** The trajectory trail of src/components/Animation2.tsx: a flat buffer of
    3000 coordinates holding up to 1000 points, and the draw-range count that
    says how many of them are drawn. */
module TrailBuffer {

  /** A point of the trail (the marker's x, y, z). */
  datatype Position = Position(x: real, y: real, z: real)

  /** Points the trail can hold. */
  const Capacity: nat := 1000

  /** Slots of the coordinate buffer, three per point. */
  const Slots: nat := 3000

  /** The coordinates of the points, three consecutive slots per point, in order. */
  function Flatten(ps: seq<Position>): (s: seq<real>)
    ensures |s| == 3 * |ps|
  {
    if ps == [] then [] else [ps[0].x, ps[0].y, ps[0].z] + Flatten(ps[1..])
  }

  /** Point i of ps sits at slots 3i, 3i+1 and 3i+2. */
  lemma {:induction false} FlattenAt(ps: seq<Position>, i: nat)
    requires i < |ps|
    ensures Flatten(ps)[3 * i] == ps[i].x
    ensures Flatten(ps)[3 * i + 1] == ps[i].y
    ensures Flatten(ps)[3 * i + 2] == ps[i].z
  {
    if i > 0 {
      FlattenAt(ps[1..], i - 1);
    }
  }

  /** Appending a point appends its three coordinates. */
  lemma {:induction false} FlattenSnoc(ps: seq<Position>, p: Position)
    ensures Flatten(ps + [p]) == Flatten(ps) + [p.x, p.y, p.z]
  {
    if ps != [] {
      assert (ps + [p])[1..] == ps[1..] + [p];
      FlattenSnoc(ps[1..], p);
    }
  }

  /** Dropping the oldest point drops its three coordinates. */
  lemma FlattenTail(ps: seq<Position>)
    requires ps != []
    ensures Flatten(ps[1..]) == Flatten(ps)[3..]
  {
  }

  /** The most recent Capacity points of a history, oldest first. */
  function Recent(history: seq<Position>): (r: seq<Position>)
    ensures |r| == if |history| <= Capacity then |history| else Capacity
    ensures forall i :: 0 <= i < |r| ==> r[i] == history[|history| - |r| + i]
  {
    if |history| <= Capacity then history else history[|history| - Capacity..]
  }

  /** One more point: below capacity it is appended, at capacity the oldest is evicted. */
  lemma {:induction false} RecentSnoc(history: seq<Position>, p: Position)
    ensures Recent(history + [p]) ==
      if |history| < Capacity then Recent(history) + [p] else Recent(history)[1..] + [p]
  {
    var h := history + [p];
    if |history| >= Capacity {
      assert h[|h| - Capacity..] == history[|history| - Capacity..][1..] + [p];
    }
  }

  /** Slots 3k..3k+2 of the drawn prefix hold the k-th of the most recent
      points, counted from the oldest one still kept. */
  lemma RecentSlotsAt(history: seq<Position>, k: nat)
    requires k < |Recent(history)|
    ensures var n := |history| - |Recent(history)|;
      0 <= n + k < |history| &&
      Flatten(Recent(history))[3 * k] == history[n + k].x &&
      Flatten(Recent(history))[3 * k + 1] == history[n + k].y &&
      Flatten(Recent(history))[3 * k + 2] == history[n + k].z
  {
    FlattenAt(Recent(history), k);
  }

  /** The buffer after one push onto c drawn points: a free point slot is
      written, or, when all are taken, every coordinate moves left by one
      point and the new point takes the last three slots. */
  function PushSlots(s: seq<real>, c: nat, p: Position): (r: seq<real>)
    requires |s| == Slots && c <= Capacity
    ensures |r| == Slots
  {
    if c < Capacity then s[3 * c := p.x][3 * c + 1 := p.y][3 * c + 2 := p.z]
    else s[3..] + [p.x, p.y, p.z]
  }

  /** The draw count after one push onto c drawn points. */
  function PushCount(c: nat): (r: nat)
    requires c <= Capacity
    ensures 1 <= r <= Capacity
    ensures c < Capacity ==> r == c + 1
    ensures c == Capacity ==> r == Capacity
  {
    if c < Capacity then c + 1 else Capacity
  }

  /** Below capacity a push writes its point at slots 3c..3c+2 and nothing else. */
  lemma PushWritesFreeSlot(s: seq<real>, c: nat, p: Position)
    requires |s| == Slots && c < Capacity
    ensures 3 * c + 2 < Slots
    ensures PushSlots(s, c, p)[3 * c] == p.x
    ensures PushSlots(s, c, p)[3 * c + 1] == p.y
    ensures PushSlots(s, c, p)[3 * c + 2] == p.z
    ensures forall i :: 0 <= i < Slots && !(3 * c <= i < 3 * c + 3) ==> PushSlots(s, c, p)[i] == s[i]
  {
  }

  /** At capacity a push moves slot i + 3 to slot i and writes the point at the end. */
  lemma PushShiftsWhenFull(s: seq<real>, p: Position)
    requires |s| == Slots
    ensures forall i :: 0 <= i < Slots - 3 ==> PushSlots(s, Capacity, p)[i] == s[i + 3]
    ensures PushSlots(s, Capacity, p)[Slots - 3..] == [p.x, p.y, p.z]
  {
  }

  /** The drawn prefix keeps holding the most recent points, oldest first. */
  lemma PushKeepsRecent(s: seq<real>, history: seq<Position>, p: Position)
    requires |s| == Slots
    requires s[..3 * |Recent(history)|] == Flatten(Recent(history))
    ensures |Recent(history + [p])| == PushCount(|Recent(history)|)
    ensures PushSlots(s, |Recent(history)|, p)[..3 * PushCount(|Recent(history)|)] ==
      Flatten(Recent(history + [p]))
  {
    var c := |Recent(history)|;
    var r := PushSlots(s, c, p);
    RecentSnoc(history, p);
    if c < Capacity {
      FlattenSnoc(Recent(history), p);
      assert r[..3 * c + 3] == s[..3 * c] + [p.x, p.y, p.z];
    } else {
      FlattenSnoc(Recent(history)[1..], p);
      FlattenTail(Recent(history));
      assert r[..3 * c] == s[..3 * c][3..] + [p.x, p.y, p.z];
    }
  }

  /** After a push the last drawn point is the one just pushed. */
  lemma PushDrawsLast(s: seq<real>, c: nat, p: Position)
    requires |s| == Slots && c <= Capacity
    ensures PushSlots(s, c, p)[3 * PushCount(c) - 3..3 * PushCount(c)] == [p.x, p.y, p.z]
  {
  }

  class Trail {
    /** positions: the Float32Array(3000) of the geometry. */
    var positions: array<real>
    /** count: trajectory.geometry.drawRange.count, the number of points drawn. */
    var count: nat
    /** Every point pushed so far, oldest first. */
    ghost var Pushed: seq<Position>

    /** The drawn prefix of the buffer holds the most recent points in order. */
    ghost predicate Valid()
      reads this, positions
    {
      positions.Length == Slots &&
      count == |Recent(Pushed)| &&
      positions[..3 * count] == Flatten(Recent(Pushed))
    }

    /** The coordinates that the draw range covers. */
    ghost function Drawn(): seq<real>
      reads this, positions
      requires Valid()
    {
      positions[..3 * count]
    }

    /** A zero-filled buffer with an empty draw range. */
    constructor ()
      ensures Valid() && fresh(positions)
      ensures count == 0 && Pushed == [] && Drawn() == []
      ensures positions[..] == seq(Slots, _ => 0.0)
    {
      positions := new real[Slots](_ => 0.0);
      count := 0;
      Pushed := [];
    }

    /** positions.copyWithin(0, 3, positions.length): every coordinate moves
        three slots to the left; the last three slots keep their values. */
    method CopyWithin()
      requires positions.Length == Slots
      modifies positions
      ensures positions[..Slots - 3] == old(positions[3..])
      ensures positions[Slots - 3..] == old(positions[Slots - 3..])
    {
      forall i | 0 <= i < positions.Length - 3 {
        positions[i] := positions[i + 3];
      }
    }

    /** One frame of animate: record the marker position p in the trail. */
    method Push(p: Position)
      requires Valid()
      modifies this, positions
      ensures Valid() && positions == old(positions)
      ensures Pushed == old(Pushed) + [p]
      ensures positions[..] == PushSlots(old(positions[..]), old(count), p)
      ensures count == PushCount(old(count))
      ensures Drawn() == Flatten(Recent(Pushed))
    {
      var drawCount := count;
      ghost var before := positions[..];
      ghost var after := PushSlots(before, drawCount, p);
      if drawCount < Capacity {
        positions[drawCount * 3] := p.x;
        positions[drawCount * 3 + 1] := p.y;
        positions[drawCount * 3 + 2] := p.z;
        count := drawCount + 1;
        assert positions[..] == after;
      } else {
        CopyWithin();
        positions[positions.Length - 3] := p.x;
        positions[positions.Length - 2] := p.y;
        positions[positions.Length - 1] := p.z;
        count := Capacity;
        assert positions[..] == positions[..Slots - 3] + [p.x, p.y, p.z];
        assert positions[..] == after;
      }
      PushKeepsRecent(before, Pushed, p);
      Pushed := Pushed + [p];
    }
  }
}
