/** `ptr_arraylist_t`: a growable array with a fill count, a capacity and
    an optional per-element destructor. */
module ArrayLists {

  /** `CONTAINER_INIT_SIZE`: the capacity every container starts with. */
  const InitSize: nat := 2

  class ArrayList<T(0)> {
    var arr: array<T>
    var count: nat
    var size: nat
    /** Whether `elem_destr_func` is non-NULL. */
    const hasDestructor: bool

    ghost predicate Valid()
      reads this
    {
      arr.Length == size && count <= size
    }

    /** The stored elements, in order. */
    ghost function Items(): seq<T>
      reads this, arr
      requires Valid()
    {
      arr[..count]
    }

    /** `arraylist_make`: capacity 2, nothing stored. */
    constructor (hasDestructor: bool)
      ensures Valid() && fresh(arr)
      ensures size == InitSize && count == 0 && Items() == []
      ensures this.hasDestructor == hasDestructor
    {
      arr := new T[InitSize];
      count := 0;
      size := InitSize;
      this.hasDestructor := hasDestructor;
    }

    /** `arraylist_push`: a full list first doubles its capacity (copying
        the stored elements over); a list of capacity 0 cannot double and
        the push fails. On success the item is stored at index `count`. */
    method Push(item: T) returns (ok: bool)
      requires Valid()
      modifies this, arr
      ensures Valid()
      ensures ok <==> old(size) != 0
      ensures ok ==> Items() == old(Items()) + [item]
      ensures !ok ==> Items() == old(Items())
      ensures size == (if ok && old(count) == old(size) then 2 * old(size) else old(size))
      ensures arr == old(arr) || fresh(arr)
    {
      if count == size {
        size := 2 * size;
        if size == 0 {
          return false;
        }
        var grown := new T[size];
        forall i | 0 <= i < count {
          grown[i] := arr[i];
        }
        arr := grown;
      }
      arr[count] := item;
      count := count + 1;
      ok := true;
    }

    /** `arraylist_destroy`: the destructor, if any, is applied to the
        stored elements in index order (the applications are returned, in
        order); then the storage is released and both counters are zero. */
    method Destroy() returns (destroyed: seq<T>)
      requires Valid()
      modifies this
      ensures Valid() && fresh(arr)
      ensures destroyed == (if hasDestructor then old(Items()) else [])
      ensures count == 0 && size == 0 && Items() == []
    {
      destroyed := [];
      if hasDestructor {
        var i := 0;
        while i < count
          invariant i <= count
          invariant destroyed == arr[..i]
        {
          destroyed := destroyed + [arr[i]];
          i := i + 1;
        }
      }
      arr := new T[0];
      count, size := 0, 0;
    }
  }
}
