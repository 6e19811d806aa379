/** darray.h: a counted buffer that grows by reallocation and shrinks by shifting. */
module DynArray {
  import opened SortedList

  class DArray<T(0)> {
    var ct: nat
    var items: array<T>

    ghost predicate Valid()
      reads this
    {
      ct <= items.Length
    }

    ghost function Contents(): seq<T>
      reads this, items
      requires Valid()
    {
      items[..ct]
    }

    // DA_INIT
    constructor (mem: nat)
      ensures Valid() && Contents() == [] && items.Length == mem && fresh(items)
    {
      ct := 0;
      items := new T[mem];
    }

    // DA_ADD_TO_END, with DA_CHECK_AND_REALLOC
    method Append(x: T)
      requires Valid()
      modifies this, items
      ensures Valid() && Contents() == old(Contents()) + [x]
      ensures items.Length == if old(ct) < old(items.Length) then old(items.Length) else 2 * old(items.Length) + 8
    {
      if ct + 1 > items.Length {
        var grown := new T[2 * items.Length + 8];
        forall i | 0 <= i < items.Length {
          grown[i] := items[i];
        }
        items := grown;
      }
      items[ct] := x;
      ct := ct + 1;
    }

    // DA_REMOVE: the slot keeps the removed element only if nothing moves into it.
    method Remove(i: nat)
      requires Valid() && i < ct
      modifies this`ct, items
      ensures Valid() && Contents() == RemoveAt(old(Contents()), i)
      ensures items[i] == if i + 1 < old(ct) then old(items[i + 1]) else old(items[i])
    {
      ct := ct - 1;
      var k := i;
      while k < ct
        invariant i <= k <= ct == old(ct) - 1 && ct < items.Length
        invariant forall t :: 0 <= t < i ==> items[t] == old(items[t])
        invariant forall t :: i <= t < k ==> items[t] == old(items[t + 1])
        invariant forall t :: k <= t < items.Length ==> items[t] == old(items[t])
      {
        items[k] := items[k + 1];
        k := k + 1;
      }
    }

    // The end of trim_host: remove through a pointer into the array, then read what it points to
    // in order to free it. What is read is the removed element exactly if that was the last one.
    method RemoveThenRead(i: nat) returns (freed: T)
      requires Valid() && i < ct
      requires forall a, b :: 0 <= a < b < ct ==> items[a] != items[b]
      modifies this`ct, items
      ensures Valid() && Contents() == RemoveAt(old(Contents()), i)
      ensures freed == old(items[i]) <==> i == old(ct) - 1
      ensures freed in Contents() <==> i != old(ct) - 1
    {
      ghost var was := Contents();
      Remove(i);
      freed := items[i];
      assert was[i] !in RemoveAt(was, i);
      if i < ct {
        assert items[i] == Contents()[i];
      }
    }
  }
}
