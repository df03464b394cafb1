/**
 * The message store as the firmware lays it out: a fixed array of
 * `Capacity` slots (`stored_messages`) and a fill count
 * (`stored_message_count`). Only the first `count` slots are meaningful.
 */
module MessageStore {

  import opened History

  datatype Store<T> = Store(slots: seq<T>, count: int)
  {
    predicate Valid()
    {
      |slots| == Capacity && 0 <= count <= Capacity
    }

    /** The history the store represents, oldest first. */
    function Contents(): (h: seq<T>)
      requires Valid()
      ensures |h| == count
      ensures forall i :: 0 <= i < count ==> h[i] == slots[i]
    {
      slots[..count]
    }
  }

  /** The store at start-up: nothing counted; `filler` stands for the zeroed slots. */
  function Empty<T>(filler: T): (st: Store<T>)
    ensures st.Valid()
    ensures st.Contents() == []
  {
    Store(seq(Capacity, _ => filler), 0)
  }

  /**
   * Store one record: write it at index `count` and bump the count while
   * there is room; otherwise shift every slot down by one and write it into
   * the last slot.
   */
  function Insert<T>(st: Store<T>, x: T): (st': Store<T>)
    requires st.Valid()
    ensures st'.Valid()
    ensures st'.Contents() == Push(st.Contents(), x)
    ensures st.count < Capacity ==>
      && st'.count == st.count + 1
      && st'.slots[st.count] == x
      && (forall i :: 0 <= i < Capacity && i != st.count ==> st'.slots[i] == st.slots[i])
    ensures st.count == Capacity ==>
      && st'.count == Capacity
      && st'.slots[Capacity - 1] == x
      && (forall i :: 0 <= i < Capacity - 1 ==> st'.slots[i] == st.slots[i + 1])
  {
    if st.count < Capacity then
      Store(st.slots[st.count := x], st.count + 1)
    else
      Store(st.slots[1..] + [x], st.count)
  }

  /** The in-place array version of `Insert`, with the element-by-element shift loop. */
  method InsertInPlace<T>(st: Store<T>, x: T) returns (st': Store<T>)
    requires st.Valid()
    ensures st'.Valid()
    ensures st'.Contents() == Push(st.Contents(), x)
    ensures st' == Insert(st, x)
  {
    var a := new T[Capacity](i requires 0 <= i < Capacity => st.slots[i]);
    var count := st.count;
    if count < Capacity {
      a[count] := x;
      count := count + 1;
    } else {
      var i := 0;
      while i < Capacity - 1
        invariant 0 <= i <= Capacity - 1
        invariant forall k :: 0 <= k < i ==> a[k] == st.slots[k + 1]
        invariant forall k :: i <= k < Capacity ==> a[k] == st.slots[k]
      {
        a[i] := a[i + 1];
        i := i + 1;
      }
      a[Capacity - 1] := x;
    }
    st' := Store(a[..], count);
    assert st'.slots == Insert(st, x).slots;
  }
}
