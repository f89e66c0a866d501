/** copyonwritebuffer.cc and .h: byte buffers that share their storage until one of them is written to. */
module CopyOnWriteBuffers {
  import opened Octets

  function Max(x: nat, y: nat): (m: nat)
    ensures x <= m && y <= m && (m == x || m == y)
  {
    if x < y then y else x
  }

  /** RefCountedObject<Buffer>: a buffer and the number of references to it. */
  class Storage {
    var data: seq<Byte>
    var capacity: nat
    var refs: nat

    /** The constructor of Buffer from data, or from a size: what is then in it is up to the caller of this. */
    constructor (bytes: seq<Byte>, room: nat)
      ensures data == bytes && capacity == Max(|bytes|, room) && refs == 0
    {
      data, capacity, refs := bytes, Max(|bytes|, room), 0;
    }

    /** EnsureCapacityWithHeadroom. */
    method EnsureCapacity(room: nat, extraHeadroom: bool)
      modifies `capacity
      ensures capacity == if room <= old(capacity) then old(capacity)
                          else if extraHeadroom then Max(room, old(capacity) + old(capacity) / 2) else room
    {
      if room > capacity {
        capacity := if extraHeadroom then Max(room, capacity + capacity / 2) else room;
      }
    }
  }

  /** How many handles name a storage. */
  ghost function Count(handles: seq<Storage?>, s: Storage): nat {
    if |handles| == 0 then 0
    else Count(handles[..|handles| - 1], s) + (if handles[|handles| - 1] == s then 1 else 0)
  }

  lemma {:induction false} CountUpdate(handles: seq<Storage?>, i: nat, p: Storage?, s: Storage)
    requires i < |handles|
    ensures Count(handles[i := p], s)
            == Count(handles, s) - (if handles[i] == s then 1 else 0) + (if p == s then 1 else 0)
    ensures handles[i] == s ==> Count(handles, s) > 0
  {
    var n := |handles| - 1;
    if i < n {
      CountUpdate(handles[..n], i, p, s);
      assert handles[i := p][..n] == handles[..n][i := p];
    } else {
      assert handles[i := p][..n] == handles[..n];
    }
  }

  lemma {:induction false} CountAbsent(handles: seq<Storage?>, s: Storage)
    requires s !in handles
    ensures Count(handles, s) == 0
  {
    if |handles| > 0 {
      CountAbsent(handles[..|handles| - 1], s);
    }
  }

  /** A storage with one reference is named by one handle. */
  lemma Unshared(handles: seq<Storage?>, i: nat, j: nat, s: Storage)
    requires i < |handles| && j < |handles| && i != j && handles[i] == s && handles[j] == s
    ensures Count(handles, s) >= 2
  {
    CountUpdate(handles, i, null, s);
    CountUpdate(handles[i := null], j, null, s);
  }

  /** Any number of CopyOnWriteBuffers, by number: the buffer_ of each. */
  class Handles {
    var handles: seq<Storage?>

    ghost function Repr(): (r: set<object>)
      reads this
      ensures forall s: Storage | s in handles :: s in r
    {
      set s: Storage | s in handles :: s
    }

    /** Every reference is counted. */
    ghost predicate Counted()
      reads this, Repr()
    {
      forall s: Storage | s in handles :: s.refs == Count(handles, s)
    }

    /** IsConsistent, for all of them. */
    ghost predicate Valid()
      reads this, Repr()
    {
      Counted() && forall s: Storage | s in handles :: s.capacity > 0 && |s.data| <= s.capacity
    }

    /** What a buffer contains for all that its user can tell. */
    function Contents(i: nat): seq<Byte>
      requires i < |handles|
      reads this, handles[i]
    {
      if handles[i] == null then [] else handles[i].data
    }

    function AllContents(): (values: seq<seq<Byte>>)
      reads this, Repr()
      ensures |values| == |handles| && forall i: nat | i < |handles| :: values[i] == Contents(i)
    {
      assert forall i | 0 <= i < |handles| :: handles[i] in handles;
      seq(|handles|, i requires 0 <= i < |handles| reads this, Repr() => Contents(i))
    }

    function Capacity(i: nat): nat
      requires i < |handles|
      reads this, handles[i]
    {
      if handles[i] == null then 0 else handles[i].capacity
    }

    constructor ()
      ensures Valid() && handles == []
    {
      handles := [];
    }

    /** The assignment of a scoped_refptr: the new storage gains a reference before the old one loses one. */
    method Assign(i: nat, p: Storage?)
      requires i < |handles| && Counted() && (p != null ==> p.refs == Count(handles, p))
      modifies this, Repr(), p
      ensures Counted() && handles == old(handles)[i := p]
      ensures forall s: Storage | s in old(handles) || s == p :: s.data == old(s.data) && s.capacity == old(s.capacity)
    {
      hide Count;
      var before := handles[i];
      ghost var was := handles;
      if p != null {
        p.refs := p.refs + 1;
      }
      handles := handles[i := p];
      if before != null {
        CountUpdate(was, i, p, before);
        assert before in was;
        before.refs := before.refs - 1;
      }
      forall s: Storage | s in handles ensures s.refs == Count(handles, s) {
        CountUpdate(was, i, p, s);
        assert s in was || s == p;
      }
    }

    /** buffer_ = new RefCountedObject<Buffer>(...). */
    method Renew(i: nat, bytes: seq<Byte>, room: nat)
      requires i < |handles| && Valid()
      modifies this, Repr()
      ensures fresh(Repr() - old(Repr()))
      ensures Counted() && |handles| == |old(handles)|
      ensures handles[i] != null && fresh(handles[i]) && handles[i].refs == 1
      ensures handles[i].data == bytes && handles[i].capacity == Max(|bytes|, room)
      ensures forall k: nat | k < |handles| && k != i :: handles[k] == old(handles[k])
      ensures forall s: Storage | s in old(handles) :: s.data == old(s.data) && s.capacity == old(s.capacity)
    {
      hide Count;
      var p := new Storage(bytes, room);
      CountAbsent(handles, p);
      ghost var was := handles;
      Assign(i, p);
      assert handles[i] in handles;
      CountUpdate(was, i, p, p);
    }

    /** Only handle i can see a storage that it names and that has one reference. */
    lemma OnlyOne(i: nat)
      requires i < |handles| && Counted() && handles[i] != null && handles[i].refs == 1
      ensures forall k: nat | k < |handles| && k != i :: handles[k] != handles[i]
    {
      hide Count;
      forall k: nat | k < |handles| && k != i ensures handles[k] != handles[i] {
        assert handles[i] in handles;
        if handles[k] == handles[i] {
          Unshared(handles, i, k, handles[i]);
        }
      }
    }

    /** CloneDataIfReferenced: afterwards the storage is not shared. */
    method CloneDataIfReferenced(i: nat, newCapacity: nat)
      requires i < |handles| && Valid() && handles[i] != null && newCapacity >= handles[i].capacity
      modifies this, Repr()
      ensures fresh(Repr() - old(Repr()))
      ensures Valid() && |handles| == |old(handles)| && handles[i] != null && handles[i].refs == 1
      ensures handles[i] == old(handles[i]) || fresh(handles[i])
      ensures Contents(i) == old(Contents(i)) && Capacity(i) >= old(Capacity(i))
      ensures handles[i] == old(handles[i]) ==> Capacity(i) == old(Capacity(i))
      ensures handles[i] != old(handles[i]) ==> Capacity(i) == newCapacity
      ensures forall k: nat | k < |handles| && k != i :: handles[k] == old(handles[k])
      ensures forall k: nat | k < |handles| && k != i :: Contents(k) == old(Contents(k)) && Capacity(k) == old(Capacity(k))
    {
      hide Count;
      assert handles[i] in handles;
      if handles[i].refs == 1 {
        return;
      }
      Renew(i, handles[i].data, newCapacity);
    }

    /** Storage that is not shared is written to in place. */
    method Overwrite(i: nat, bytes: seq<Byte>)
      requires i < |handles| && Valid() && handles[i] != null && handles[i].refs == 1 && |bytes| <= handles[i].capacity
      modifies handles[i]
      ensures Valid() && Contents(i) == bytes && Capacity(i) == old(Capacity(i)) && handles[i].refs == 1
      ensures forall k: nat | k < |handles| && k != i :: Contents(k) == old(Contents(k)) && Capacity(k) == old(Capacity(k))
    {
      hide Count;
      OnlyOne(i);
      assert handles[i] in handles;
      handles[i].data := bytes;
    }

    /** Storage that is not shared gets more room. */
    method Grow(i: nat, room: nat, extraHeadroom: bool)
      requires i < |handles| && Valid() && handles[i] != null && handles[i].refs == 1
      modifies handles[i]
      ensures Valid() && Contents(i) == old(Contents(i)) && Capacity(i) >= room && handles[i].refs == 1
      ensures room <= old(Capacity(i)) ==> Capacity(i) == old(Capacity(i))
      ensures room > old(Capacity(i)) && !extraHeadroom ==> Capacity(i) == room
      ensures forall k: nat | k < |handles| && k != i :: Contents(k) == old(Contents(k)) && Capacity(k) == old(Capacity(k))
    {
      hide Count;
      OnlyOne(i);
      assert handles[i] in handles;
      handles[i].EnsureCapacity(room, extraHeadroom);
    }

    /** The constructor from data, for a new handle at the end. */
    method Add(bytes: seq<Byte>, capacity: nat)
      requires Valid()
      modifies this, Repr()
      ensures fresh(Repr() - old(Repr()))
      ensures Valid() && |handles| == |old(handles)| + 1
      ensures Contents(|old(handles)|) == bytes && Capacity(|old(handles)|) == Max(|bytes|, capacity)
      ensures forall k: nat | k < |old(handles)| :: Contents(k) == old(Contents(k)) && Capacity(k) == old(Capacity(k))
    {
      hide Count;
      Extended(handles);
      ghost var was := handles;
      handles := handles + [null];
      assert forall s: Storage | s in handles :: s in was;
      if |bytes| > 0 || capacity > 0 {
        Renew(|handles| - 1, bytes, capacity);
      }
    }

    /** operator= and SetData from another handle, and the copy constructor. */
    method CopyFrom(i: nat, j: nat)
      requires i < |handles| && j < |handles| && Valid()
      modifies this, Repr()
      ensures fresh(Repr() - old(Repr()))
      ensures Valid() && handles == old(handles)[i := old(handles[j])]
      ensures Contents(i) == old(Contents(j)) && Capacity(i) == old(Capacity(j))
      ensures forall k: nat | k < |handles| && k != i :: Contents(k) == old(Contents(k)) && Capacity(k) == old(Capacity(k))
    {
      hide Count;
      if i != j {
        assert handles[j] != null ==> handles[j] in handles;
        Assign(i, handles[j]);
      }
    }

    /** operator= from a handle that is moved from, and the destructor for j. Moving to itself changes nothing. */
    method MoveFrom(i: nat, j: nat)
      requires i < |handles| && j < |handles| && Valid()
      modifies this, Repr()
      ensures fresh(Repr() - old(Repr()))
      ensures Valid() && |handles| == |old(handles)|
      ensures Contents(i) == old(Contents(j)) && Capacity(i) == old(Capacity(j))
      ensures i != j ==> Contents(j) == [] && Capacity(j) == 0
      ensures forall k: nat | k < |handles| && k != i && k != j ::
                Contents(k) == old(Contents(k)) && Capacity(k) == old(Capacity(k))
    {
      hide Count;
      if i != j {
        CopyFrom(i, j);
        assert forall s: Storage | s in handles :: s in old(handles);
        Assign(j, null);
      }
    }

    method SetData(i: nat, bytes: seq<Byte>)
      requires i < |handles| && Valid()
      modifies this, Repr()
      ensures fresh(Repr() - old(Repr()))
      ensures Valid() && |handles| == |old(handles)|
      ensures Contents(i) == bytes && Capacity(i) >= old(Capacity(i))
      ensures forall k: nat | k < |handles| && k != i :: Contents(k) == old(Contents(k)) && Capacity(k) == old(Capacity(k))
    {
      hide Count;
      if handles[i] == null {
        if |bytes| > 0 {
          Renew(i, bytes, |bytes|);
        }
        return;
      }
      assert handles[i] in handles;
      if handles[i].refs != 1 {
        Renew(i, bytes, handles[i].capacity);
      } else {
        Grow(i, |bytes|, true);
        Overwrite(i, bytes);
      }
    }

    /** AppendData. The buffer stays consistent unless nothing is appended to a buffer without storage. */
    method AppendData(i: nat, bytes: seq<Byte>)
      requires i < |handles| && Valid()
      modifies this, Repr()
      ensures fresh(Repr() - old(Repr()))
      ensures Valid() <==> old(handles[i]) != null || |bytes| > 0
      ensures |handles| == |old(handles)|
      ensures Contents(i) == old(Contents(i)) + bytes && Capacity(i) >= old(Capacity(i))
      ensures forall k: nat | k < |handles| && k != i :: Contents(k) == old(Contents(k)) && Capacity(k) == old(Capacity(k))
    {
      hide Count;
      if handles[i] == null {
        Renew(i, bytes, |bytes|);
        assert handles[i] in handles;
        return;
      }
      assert handles[i] in handles;
      CloneDataIfReferenced(i, Max(handles[i].capacity, |handles[i].data| + |bytes|));
      Grow(i, |handles[i].data| + |bytes|, true);
      Overwrite(i, handles[i].data + bytes);
    }

    /** SetSize's copy of storage that is shared: as much of the data as will be needed, and room for all of it. */
    method CopyStart(i: nat, size: nat)
      requires i < |handles| && Valid() && handles[i] != null
      modifies this, Repr()
      ensures fresh(Repr() - old(Repr()))
      ensures Valid() && |handles| == |old(handles)| && fresh(handles[i]) && handles[i].refs == 1
      ensures Contents(i) == if size < |old(Contents(i))| then old(Contents(i)[..size]) else old(Contents(i))
      ensures Capacity(i) >= old(Capacity(i))
      ensures forall k: nat | k < |handles| && k != i :: Contents(k) == old(Contents(k)) && Capacity(k) == old(Capacity(k))
    {
      hide Count;
      assert handles[i] in handles;
      var bytes := handles[i].data;
      Renew(i, if size < |bytes| then bytes[..size] else bytes, Max(handles[i].capacity, size));
    }

    /** SetSize, where `unspecified` is what new space happens to contain. */
    method SetSize(i: nat, size: nat, unspecified: seq<Byte>)
      requires i < |handles| && Valid()
      requires |unspecified| == if size > |Contents(i)| then size - |Contents(i)| else 0
      modifies this, Repr()
      ensures fresh(Repr() - old(Repr()))
      ensures Valid() && |handles| == |old(handles)|
      ensures Contents(i) == if size <= |old(Contents(i))| then old(Contents(i)[..size]) else old(Contents(i)) + unspecified
      ensures Capacity(i) >= old(Capacity(i))
      ensures forall k: nat | k < |handles| && k != i :: Contents(k) == old(Contents(k)) && Capacity(k) == old(Capacity(k))
    {
      hide Count;
      if handles[i] == null {
        if size > 0 {
          Renew(i, unspecified, size);
        }
        return;
      }
      var bytes := handles[i].data;
      if handles[i].refs != 1 {
        CopyStart(i, size);
      }
      Grow(i, size, true);
      Overwrite(i, if size <= |bytes| then bytes[..size] else bytes + unspecified);
    }

    method EnsureCapacity(i: nat, capacity: nat)
      requires i < |handles| && Valid()
      modifies this, Repr()
      ensures fresh(Repr() - old(Repr()))
      ensures Valid() && |handles| == |old(handles)|
      ensures Contents(i) == old(Contents(i)) && Capacity(i) == Max(old(Capacity(i)), capacity)
      ensures forall k: nat | k < |handles| && k != i :: Contents(k) == old(Contents(k)) && Capacity(k) == old(Capacity(k))
    {
      hide Count;
      if handles[i] == null {
        if capacity > 0 {
          Renew(i, [], capacity);
        }
        return;
      } else if capacity <= handles[i].capacity {
        return;
      }
      CloneDataIfReferenced(i, Max(handles[i].capacity, capacity));
      Grow(i, capacity, false);
    }

    method Clear(i: nat)
      requires i < |handles| && Valid()
      modifies this, Repr()
      ensures fresh(Repr() - old(Repr()))
      ensures Valid() && |handles| == |old(handles)|
      ensures Contents(i) == [] && Capacity(i) == old(Capacity(i))
      ensures forall k: nat | k < |handles| && k != i :: Contents(k) == old(Contents(k)) && Capacity(k) == old(Capacity(k))
    {
      hide Count;
      if handles[i] == null {
        return;
      }
      assert handles[i] in handles;
      if handles[i].refs == 1 {
        Overwrite(i, []);
      } else {
        Renew(i, [], handles[i].capacity);
      }
    }

    /** A write through operator[] or through the pointer that data() returns. */
    method Write(i: nat, index: nat, b: Byte)
      requires i < |handles| && Valid() && index < |Contents(i)|
      modifies this, Repr()
      ensures fresh(Repr() - old(Repr()))
      ensures Valid() && |handles| == |old(handles)|
      ensures Contents(i) == old(Contents(i))[index := b] && Capacity(i) == old(Capacity(i))
      ensures forall k: nat | k < |handles| && k != i :: Contents(k) == old(Contents(k)) && Capacity(k) == old(Capacity(k))
    {
      hide Count;
      CloneDataIfReferenced(i, handles[i].capacity);
      Overwrite(i, handles[i].data[index := b]);
    }
  }

  // ---------- sharing does not show ----------

  /** An operation on buffers that are known by number. */
  datatype Operation =
    | New(bytes: seq<Byte>, capacity: nat)
    | Copy(to: nat, from: nat)
    | Move(to: nat, from: nat)
    | Set(to: nat, bytes: seq<Byte>)
    | Append(to: nat, bytes: seq<Byte>)
    | Resize(to: nat, size: nat, unspecified: seq<Byte>)
    | Reserve(to: nat, capacity: nat)
    | Empty(to: nat)
    | Put(to: nat, index: nat, b: Byte)

  /** What callers must keep to; appending nothing to a buffer without storage is left out with all empty appends. */
  predicate Allowed(values: seq<seq<Byte>>, op: Operation) {
    match op
    case New(_, _) => true
    case Copy(to, from) => to < |values| && from < |values|
    case Move(to, from) => to < |values| && from < |values|
    case Set(to, _) => to < |values|
    case Append(to, bytes) => to < |values| && |bytes| > 0
    case Resize(to, size, unspecified) =>
      to < |values| && |unspecified| == if size > |values[to]| then size - |values[to]| else 0
    case Reserve(to, _) => to < |values|
    case Empty(to) => to < |values|
    case Put(to, index, _) => to < |values| && index < |values[to]|
  }

  /** The operation on values that share nothing. */
  function Apply(values: seq<seq<Byte>>, op: Operation): seq<seq<Byte>>
    requires Allowed(values, op)
  {
    match op
    case New(bytes, _) => values + [bytes]
    case Copy(to, from) => values[to := values[from]]
    case Move(to, from) => if to == from then values else values[to := values[from]][from := []]
    case Set(to, bytes) => values[to := bytes]
    case Append(to, bytes) => values[to := values[to] + bytes]
    case Resize(to, size, unspecified) =>
      values[to := if size <= |values[to]| then values[to][..size] else values[to] + unspecified]
    case Reserve(_, _) => values
    case Empty(to) => values[to := []]
    case Put(to, index, b) =>
      var bytes: seq<Byte> := values[to][index := b];
      values[to := bytes]
  }

  predicate AllAllowed(ops: seq<Operation>)
    decreases |ops|, 0
  {
    |ops| > 0 ==> AllAllowed(ops[..|ops| - 1]) && Allowed(ApplyAll(ops[..|ops| - 1]), ops[|ops| - 1])
  }

  function ApplyAll(ops: seq<Operation>): seq<seq<Byte>>
    requires AllAllowed(ops)
    decreases |ops|, 1
  {
    if |ops| == 0 then [] else Apply(ApplyAll(ops[..|ops| - 1]), ops[|ops| - 1])
  }

  method Perform(h: Handles, op: Operation)
    requires h.Valid() && Allowed(h.AllContents(), op)
    modifies h, h.Repr()
    ensures h.Valid() && h.AllContents() == Apply(old(h.AllContents()), op)
    ensures fresh(h.Repr() - old(h.Repr()))
  {
    hide Count, Max, Handles.Valid, Handles.Contents, Handles.Capacity, Handles.AllContents, Handles.Repr;
    match op
    case New(bytes, capacity) => h.Add(bytes, capacity);
    case Copy(to, from) => h.CopyFrom(to, from);
    case Move(to, from) => h.MoveFrom(to, from);
    case _ => PerformOnOne(h, op);
  }

  /** The operations on a single buffer. */
  method PerformOnOne(h: Handles, op: Operation)
    requires h.Valid() && Allowed(h.AllContents(), op) && !op.New? && !op.Copy? && !op.Move?
    modifies h, h.Repr()
    ensures h.Valid() && h.AllContents() == Apply(old(h.AllContents()), op)
    ensures fresh(h.Repr() - old(h.Repr()))
  {
    hide Count, Max, Handles.Valid, Handles.Contents, Handles.Capacity, Handles.AllContents, Handles.Repr;
    match op
    case Set(to, bytes) => h.SetData(to, bytes);
    case Append(to, bytes) => h.AppendData(to, bytes);
    case Resize(to, size, unspecified) => h.SetSize(to, size, unspecified);
    case Reserve(to, capacity) => h.EnsureCapacity(to, capacity);
    case Empty(to) => h.Clear(to);
    case Put(to, index, b) => h.Write(to, index, b);
  }

  /** Any run over any number of buffers: what they contain is what buffers that share nothing would contain. */
  method PerformAll(ops: seq<Operation>) returns (contents: seq<seq<Byte>>)
    requires AllAllowed(ops)
    ensures contents == ApplyAll(ops)
  {
    hide Count, Apply, Allowed;
    var h := new Handles();
    assert ops[..0] == [];
    for i := 0 to |ops|
      invariant h.Valid() && fresh(h) && fresh(h.Repr())
      invariant AllAllowed(ops[..i]) && h.AllContents() == ApplyAll(ops[..i])
    {
      AllowedPrefix(ops, i + 1);
      assert ops[..i + 1][..i] == ops[..i];
      Perform(h, ops[i]);
    }
    assert ops[..|ops|] == ops;
    contents := h.AllContents();
  }

  lemma {:induction false} AllowedPrefix(ops: seq<Operation>, i: nat)
    requires AllAllowed(ops) && i <= |ops|
    ensures AllAllowed(ops[..i])
  {
    hide Apply, Allowed;
    if i < |ops| {
      AllowedPrefix(ops[..|ops| - 1], i);
      assert ops[..|ops| - 1][..i] == ops[..i];
    } else {
      assert ops[..i] == ops;
    }
  }

  lemma Extended(handles: seq<Storage?>)
    ensures forall s: Storage :: Count(handles + [null], s) == Count(handles, s)
  {
    assert (handles + [null])[..|handles|] == handles;
  }
}
