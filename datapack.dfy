/** The lane container of include/hlslib/DataPack.h.

    A DataPack holds `width` values of one type side by side.  The source
    stores them as bit ranges of one wide integer, lane i occupying bits
    [i * bits, (i + 1) * bits); here the lanes are a sequence, lane i being
    its element i, so reading or writing a lane touches exactly that lane.
    The all-zero bit pattern that a default-constructed pack holds is the
    value `zero` its constructors receive. */
module DataPacks {

  /** `width` lanes all holding `v`. */
  function Filled<T>(width: nat, v: T): (lanes: seq<T>)
    ensures |lanes| == width
    ensures forall i | 0 <= i < width :: lanes[i] == v
  {
    seq(width, _ => v)
  }

  /** `lanes` with lane i replaced by v. */
  function WithLane<T>(lanes: seq<T>, i: nat, v: T): (r: seq<T>)
    requires i < |lanes|
    ensures |r| == |lanes| && r[i] == v
    ensures forall j | 0 <= j < |lanes| && j != i :: r[j] == lanes[j]
  {
    lanes[i := v]
  }

  /** The lanes of `dst` after lanes src .. src + count - 1 of `source` have
      been copied to lanes dst .. dst + count - 1 of it. */
  function Shifted<T>(source: seq<T>, target: seq<T>, src: nat, dst: nat, count: nat): (r: seq<T>)
    requires src + count <= |source| && dst + count <= |target|
    ensures |r| == |target|
    ensures forall j | dst <= j < dst + count :: r[j] == source[src + (j - dst)]
    ensures forall j | 0 <= j < |target| && !(dst <= j < dst + count) :: r[j] == target[j]
  {
    target[..dst] + source[src..src + count] + target[dst + count..]
  }

  class DataPack<T> {
    const width: nat
    var lanes: seq<T>

    /** The width is positive (a static assertion of the source) and the
        pack holds exactly `width` lanes. */
    ghost predicate Valid()
      reads this
    {
      width > 0 && |lanes| == width
    }

    /** Default construction: every bit zero. */
    constructor (width: nat, zero: T)
      requires width > 0
      ensures Valid() && this.width == width
      ensures lanes == Filled(width, zero)
    {
      this.width := width;
      lanes := Filled(width, zero);
    }

    /** Construction from one value: zero bits, then Fill. */
    constructor FromValue(width: nat, zero: T, value: T)
      requires width > 0
      ensures Valid() && this.width == width
      ensures lanes == Filled(width, value)
    {
      this.width := width;
      lanes := Filled(width, zero);
      new;
      Fill(value);
    }

    /** Construction from an array of `width` values: zero bits, then Pack. */
    constructor FromArray(width: nat, zero: T, arr: array<T>)
      requires width > 0 && arr.Length == width
      ensures Valid() && this.width == width
      ensures lanes == arr[..]
    {
      this.width := width;
      lanes := Filled(width, zero);
      new;
      Pack(arr);
    }

    /** Lane i; also what the read-only operator[] returns. */
    function Get(i: nat): (v: T)
      reads this
      requires Valid() && i < width
      ensures v == lanes[i]
    {
      lanes[i]
    }

    method Set(i: nat, value: T)
      requires Valid() && i < width
      modifies this
      ensures Valid()
      ensures lanes == WithLane(old(lanes), i, value)
    {
      lanes := lanes[i := value];
    }

    method Fill(value: T)
      requires Valid()
      modifies this
      ensures Valid()
      ensures lanes == Filled(width, value)
    {
      var i := 0;
      while i < width
        invariant 0 <= i <= width && Valid()
        invariant lanes[..i] == Filled(i, value)
      {
        Set(i, value);
        i := i + 1;
      }
    }

    method Pack(arr: array<T>)
      requires Valid() && arr.Length == width
      modifies this
      ensures Valid()
      ensures lanes == arr[..]
    {
      var i := 0;
      while i < width
        invariant 0 <= i <= width && Valid()
        invariant lanes[..i] == arr[..i]
      {
        Set(i, arr[i]);
        i := i + 1;
      }
    }

    method Unpack(arr: array<T>)
      requires Valid() && arr.Length == width
      modifies arr
      ensures arr[..] == lanes
    {
      var i := 0;
      while i < width
        invariant 0 <= i <= width
        invariant arr[..i] == lanes[..i]
      {
        arr[i] := Get(i);
        i := i + 1;
      }
    }

    /** The writable operator[]: a proxy for lane i of this pack. */
    method At(i: nat) returns (p: Proxy<T>)
      ensures fresh(p) && p.pack == this && p.index == i
    {
      p := new Proxy(this, i);
    }

    /** Copies lanes src .. src + count - 1 of this pack into lanes
        dst .. dst + count - 1 of `other`, one Set at a time; this pack and
        the other lanes of `other` stay as they were. */
    method ShiftTo(other: DataPack<T>, src: nat, dst: nat, count: nat)
      requires Valid() && other.Valid() && other != this
      requires src + count <= width && dst + count <= other.width
      modifies other
      ensures other.Valid()
      ensures other.lanes == Shifted(lanes, old(other.lanes), src, dst, count)
    {
      var i := 0;
      while i < count
        invariant 0 <= i <= count && other.Valid()
        invariant other.lanes == Shifted(lanes, old(other.lanes), src, dst, i)
      {
        other.Set(dst + i, Get(src + i));
        i := i + 1;
      }
    }
  }

  /** What the writable operator[] returns: assignments through it go to
      Set, reads through it go to Get. */
  class Proxy<T> {
    const pack: DataPack<T>
    const index: nat

    constructor (pack: DataPack<T>, index: nat)
      ensures this.pack == pack && this.index == index
    {
      this.pack := pack;
      this.index := index;
    }

    function Value(): (v: T)
      reads pack
      requires pack.Valid() && index < pack.width
      ensures v == pack.lanes[index]
    {
      pack.Get(index)
    }

    method Assign(value: T)
      requires pack.Valid() && index < pack.width
      modifies pack
      ensures pack.Valid()
      ensures pack.lanes == WithLane(old(pack.lanes), index, value)
    {
      pack.Set(index, value);
    }

    /** Assignment from another proxy: read that lane, then set this one. */
    method AssignFrom(rhs: Proxy<T>)
      requires pack.Valid() && index < pack.width
      requires rhs.pack.Valid() && rhs.index < rhs.pack.width
      modifies pack
      ensures pack.Valid()
      ensures pack.lanes == WithLane(old(pack.lanes), index, old(rhs.pack.lanes)[rhs.index])
    {
      var v := rhs.Value();
      pack.Set(index, v);
    }
  }

  /** Writing lane i and reading lane j back: the written value when i == j,
      the untouched lane otherwise. */
  method SetThenGet<T>(init: seq<T>, i: nat, j: nat, value: T) returns (got: T)
    requires i < |init| && j < |init|
    ensures got == if i == j then value else init[j]
  {
    var arr := new T[|init|](k requires 0 <= k < |init| => init[k]);
    var pack := new DataPack.FromArray(|init|, init[0], arr);
    pack.Set(i, value);
    got := pack.Get(j);
  }

  /** Unpack after Pack gives back the packed array lane for lane. */
  method PackUnpack<T>(values: seq<T>) returns (unpacked: seq<T>)
    requires |values| > 0
    ensures unpacked == values
  {
    var source := new T[|values|](k requires 0 <= k < |values| => values[k]);
    var pack := new DataPack(|values|, values[0]);
    pack.Pack(source);
    var target := new T[|values|](_ => values[0]);
    pack.Unpack(target);
    unpacked := target[..];
  }

  /** Lane shift of a neighbouring vector one lane towards the east: lane
      0 comes from the register holding the west neighbour, the remaining
      lanes are the centre vector's first `|center| - 1` lanes. */
  function WestOf(center: seq<real>, westNeighbour: real): (west: seq<real>)
    requires |center| > 0
    ensures |west| == |center| && west[0] == westNeighbour
    ensures forall w | 1 <= w < |center| :: west[w] == center[w - 1]
  {
    [westNeighbour] + center[..|center| - 1]
  }

  /** Lane shift one lane towards the west: the centre vector's lanes 1 ..
      |center| - 1 followed by lane 0 of the next centre vector. */
  function EastOf(center: seq<real>, nextCenter: seq<real>): (east: seq<real>)
    requires |center| > 0 && |nextCenter| > 0
    ensures |east| == |center| && east[|center| - 1] == nextCenter[0]
    ensures forall w | 0 <= w < |center| - 1 :: east[w] == center[w + 1]
  {
    center[1..] + [nextCenter[0]]
  }

  /** The compute stage's construction of the west and east vectors from
      default (zero) packs: two ShiftTo calls from the centre register and
      two lane assignments through operator[]. */
  method AssembleWestEast(center: seq<real>, nextCenter: seq<real>, westNeighbour: real)
    returns (west: seq<real>, east: seq<real>)
    requires |center| > 0 && |nextCenter| == |center|
    ensures west == WestOf(center, westNeighbour)
    ensures east == EastOf(center, nextCenter)
  {
    var k := |center|;
    var centerArr := new real[k](i requires 0 <= i < k => center[i]);
    var shiftCenter := new DataPack.FromArray(k, 0.0, centerArr);
    var westPack := new DataPack(k, 0.0);
    var eastPack := new DataPack(k, 0.0);
    shiftCenter.ShiftTo(westPack, 0, 1, k - 1);
    shiftCenter.ShiftTo(eastPack, 1, 0, k - 1);
    var lastEast := eastPack.At(k - 1);
    lastEast.Assign(nextCenter[0]);
    var firstWest := westPack.At(0);
    firstWest.Assign(westNeighbour);
    west, east := westPack.lanes, eastPack.lanes;
  }
}
