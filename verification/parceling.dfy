/**
  `UserList` as an Android `Parcelable`. A parcel is modelled as a sequence
  of typed slots with a data position: a write stores one slot at the
  position (overwriting or growing the data) and advances it; a read takes
  the slot at the position and advances it. Past the end of the data a read
  yields the default (0 for a long, null for a string) without advancing.
 */
module Parceling {
  import opened Lang
  import opened Entities

  datatype Slot = LongSlot(v: Long) | StringSlot(s: Option<string>)

  datatype ParcelState = ParcelState(data: seq<Slot>, pos: nat)

  /** The data position never lies past the end of the data. */
  type Parcel = p: ParcelState | p.pos <= |p.data| witness ParcelState([], 0)

  /** `Parcel.obtain()`. */
  function Obtain(): (p: Parcel)
    ensures |p.data| == 0
  {
    ParcelState([], 0)
  }

  /** `setDataPosition(pos)`, within the written data. */
  function SetDataPosition(p: Parcel, pos: nat): (q: Parcel)
    requires pos <= |p.data|
    ensures q.data == p.data && q.pos == pos
  {
    ParcelState(p.data, pos)
  }

  /** Store one slot at the data position. */
  function Put(p: Parcel, s: Slot): (q: Parcel)
    ensures q.pos == p.pos + 1 && q.data[p.pos] == s
    ensures q.data[..p.pos] == p.data[..p.pos]
    ensures |q.data| == if p.pos < |p.data| then |p.data| else |p.data| + 1
  {
    if p.pos < |p.data| then ParcelState(p.data[p.pos := s], p.pos + 1)
    else ParcelState(p.data + [s], p.pos + 1)
  }

  function WriteLong(p: Parcel, v: Long): (q: Parcel) { Put(p, LongSlot(v)) }

  function WriteString(p: Parcel, s: Option<string>): (q: Parcel) { Put(p, StringSlot(s)) }

  /** `readLong()`; a string slot read as a long is reported as `BadParcel`. */
  function ReadLong(p: Parcel): (r: Result<(Long, Parcel)>)
    ensures r.Ok? && p.pos < |p.data| ==> r.value.1.pos == p.pos + 1 && p.data[p.pos] == LongSlot(r.value.0)
    ensures r.Ok? ==> r.value.1.data == p.data
  {
    if p.pos == |p.data| then Ok((0, p))
    else match p.data[p.pos]
      case LongSlot(v) => Ok((v, ParcelState(p.data, p.pos + 1)))
      case StringSlot(_) => Err(BadParcel)
  }

  /** `readString()`; a long slot read as a string is reported as `BadParcel`. */
  function ReadString(p: Parcel): (r: Result<(Option<string>, Parcel)>)
    ensures r.Ok? && p.pos < |p.data| ==> r.value.1.pos == p.pos + 1 && p.data[p.pos] == StringSlot(r.value.0)
    ensures r.Ok? ==> r.value.1.data == p.data
  {
    if p.pos == |p.data| then Ok((None, p))
    else match p.data[p.pos]
      case StringSlot(s) => Ok((s, ParcelState(p.data, p.pos + 1)))
      case LongSlot(_) => Err(BadParcel)
  }

  /** `UserList.writeToParcel`: the id as a long, then the name as a string.
      The flags argument is ignored. */
  function WriteToParcel(u: UserList, p: Parcel, flags: int): (q: Parcel)
    ensures q.pos == p.pos + 2
    ensures q.data[p.pos] == LongSlot(u.id) && q.data[p.pos + 1] == StringSlot(u.listName)
    ensures q.data[..p.pos] == p.data[..p.pos]
  {
    WriteString(WriteLong(p, u.id), u.listName)
  }

  /** The parcel constructor `UserList(parcel)`: a long, then a string, in
      the order they were written. */
  function FromParcel(p: Parcel): (r: Result<(UserList, Parcel)>) {
    match ReadLong(p)
    case Err(e) => Err(e)
    case Ok((id, p1)) =>
      match ReadString(p1)
      case Err(e) => Err(e)
      case Ok((name, p2)) => Ok((UserList(id, name), p2))
  }

  /** `CREATOR.createFromParcel`: exactly the parcel constructor. */
  function CreateFromParcel(p: Parcel): (r: Result<(UserList, Parcel)>) {
    FromParcel(p)
  }

  /** `CREATOR.newArray(size)`: `size` nulls; a negative size throws. */
  function NewArray(size: int): (r: Result<seq<Option<UserList>>>)
    ensures r.Err? <==> size < 0
    ensures r.Ok? ==> |r.value| == size && forall i :: 0 <= i < size ==> r.value[i] == None
  {
    if size < 0 then Err(NegativeArraySize) else Ok(seq(size, _ => None))
  }

  /** `describeContents()`: no file descriptors are flattened. */
  function DescribeContents(u: UserList): (r: int)
    ensures r == 0
  {
    0
  }

  /** A long slot holding the id followed by a string slot holding the
      name reads back as that `UserList`. */
  lemma ReadBack(q: Parcel, pos: nat, u: UserList)
    requires pos + 1 < |q.data|
    requires q.data[pos] == LongSlot(u.id) && q.data[pos + 1] == StringSlot(u.listName)
    ensures CreateFromParcel(SetDataPosition(q, pos)) == Ok((u, SetDataPosition(q, pos + 2)))
  {
    var p0 := SetDataPosition(q, pos);
    assert ReadLong(p0) == Ok((u.id, SetDataPosition(q, pos + 1)));
    assert ReadString(SetDataPosition(q, pos + 1)) == Ok((u.listName, SetDataPosition(q, pos + 2)));
  }

  /** Reading back from where a `UserList` was written yields an equal
      `UserList` (a null name included) and leaves the position after it. */
  lemma RoundTrip(u: UserList, p: Parcel, flags: int)
    ensures var q := WriteToParcel(u, p, flags);
      CreateFromParcel(SetDataPosition(q, p.pos)) == Ok((u, SetDataPosition(q, p.pos + 2)))
  {
    ReadBack(WriteToParcel(u, p, flags), p.pos, u);
  }

  /** Several lists written one after the other. */
  function WriteEach(us: seq<UserList>, p: Parcel): (q: Parcel)
    ensures q.pos == p.pos + 2 * |us|
    ensures q.data[..p.pos] == p.data[..p.pos]
  {
    if |us| == 0 then p else WriteEach(us[1..], WriteToParcel(us[0], p, 0))
  }

  /** `n` lists read one after the other, stopping at the first failure. */
  function ReadEach(n: nat, p: Parcel): (r: Result<seq<UserList>>) {
    if n == 0 then Ok([])
    else match CreateFromParcel(p)
      case Err(e) => Err(e)
      case Ok((u, p1)) =>
        match ReadEach(n - 1, p1)
        case Err(e) => Err(e)
        case Ok(rest) => Ok([u] + rest)
  }

  /** Later writes leave the slots before their start position alone. */
  lemma {:induction false} WriteEachKeepsPrefix(us: seq<UserList>, p: Parcel, k: nat)
    requires k <= p.pos
    ensures k <= |WriteEach(us, p).data| && WriteEach(us, p).data[..k] == p.data[..k]
  {
    var q := WriteEach(us, p);
    assert q.data[..p.pos][..k] == q.data[..k];
    assert p.data[..p.pos][..k] == p.data[..k];
  }

  /** A run of lists written in order reads back, in order, from where the
      writing started. */
  lemma {:induction false} RoundTripEach(us: seq<UserList>, p: Parcel)
    ensures var q := WriteEach(us, p);
      ReadEach(|us|, SetDataPosition(q, p.pos)) == Ok(us)
  {
    var q := WriteEach(us, p);
    if |us| > 0 {
      var p1 := WriteToParcel(us[0], p, 0);
      assert q == WriteEach(us[1..], p1);
      assert p.pos + 1 < |q.data| && q.data[p.pos] == LongSlot(us[0].id) && q.data[p.pos + 1] == StringSlot(us[0].listName) by {
        WriteEachKeepsPrefix(us[1..], p1, p.pos + 2);
        assert q.data[p.pos] == p1.data[..p.pos + 2][p.pos];
        assert q.data[p.pos + 1] == p1.data[..p.pos + 2][p.pos + 1];
      }
      ReadBack(q, p.pos, us[0]);
      assert ReadEach(|us| - 1, SetDataPosition(q, p.pos + 2)) == Ok(us[1..]) by {
        RoundTripEach(us[1..], p1);
      }
      assert us == [us[0]] + us[1..];
    }
  }
}
