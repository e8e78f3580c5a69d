/** The sorted list object of `cpp/src/sorted_list.hpp`. */
module SortedLists {
  import opened Spec = SortedSequences

  class SortedList<T(==, !new)> {
    var data: seq<T>
    var unique: bool
    const less: Less<T>

    ghost predicate Valid()
      reads this
    {
      StrictWeakOrder(less) && Sorted(less, data)
    }

    constructor (unique: bool, less: Less<T>)
      requires StrictWeakOrder(less)
      ensures Valid() && data == [] && this.unique == unique && this.less == less
    {
      this.data, this.unique, this.less := [], unique, less;
    }

    constructor FromRange(range: seq<T>, unique: bool, less: Less<T>)
      requires StrictWeakOrder(less)
      ensures Valid() && data == AddAll(less, unique, range) && this.unique == unique && this.less == less
    {
      this.data, this.unique, this.less := [], unique, less;
      new;
      for i := 0 to |range|
        invariant Valid() && data == AddAll(less, unique, range[..i]) && this.unique == unique
      {
        assert range[..i + 1][..i] == range[..i];
        var added := Add(range[i]);
      }
      assert range[..|range|] == range;
    }

    /** std::lower_bound: halves the range that is left. */
    method LowerBound(value: T) returns (first: nat)
      requires Valid()
      ensures first == Spec.LowerBound(less, data, value)
    {
      first := 0;
      var length := |data|;
      while length > 0
        invariant 0 <= length && first + length <= |data|
        invariant forall i :: 0 <= i < first ==> less(data[i], value)
        invariant first + length < |data| ==> !less(data[first + length], value)
      {
        var half := length / 2;
        var middle := first + half;
        if less(data[middle], value) {
          BelowIsBefore(less, data, middle, value);
          first := middle + 1;
          length := length - half - 1;
        } else {
          length := half;
        }
      }
      LowerBoundIsUnique(less, data, value, first);
    }

    /** Adds the value before all its equivalents; false when uniqueness refuses it. */
    method Add(value: T) returns (added: bool)
      requires Valid()
      modifies this`data
      ensures Valid() && data == Spec.Add(less, unique, old(data), value)
      ensures added <==> !unique || forall i :: 0 <= i < |old(data)| ==> !Equivalent(less, old(data)[i], value)
      ensures added ==> exists k ::
        && 0 <= k <= |old(data)| && data == old(data)[..k] + [value] + old(data)[k..]
        && (forall i :: 0 <= i < k ==> less(old(data)[i], value))
      ensures !added ==> data == old(data)
    {
      FindsFirst(less, data, value);
      AddSorted(less, unique, data, value);
      var k := LowerBound(value);
      if unique && k < |data| && Equivalent(less, data[k], value) {
        return false;
      }
      data := data[..k] + [value] + data[k..];
      return true;
    }

    /** The index of the first equivalent element, or the size for `end`. */
    method Find(value: T) returns (k: nat)
      requires Valid()
      ensures k == Spec.Find(less, data, value) <= |data|
      ensures k < |data| ==> Equivalent(less, data[k], value)
      ensures forall i :: 0 <= i < k ==> !Equivalent(less, data[i], value)
    {
      FindsFirst(less, data, value);
      k := LowerBound(value);
      if k < |data| && Equivalent(less, data[k], value) {
        return k;
      }
      k := |data|;
    }

    method Contains(value: T) returns (found: bool)
      requires Valid()
      ensures found <==> exists i :: 0 <= i < |data| && Equivalent(less, data[i], value)
    {
      var k := Find(value);
      found := k != |data|;
    }

    /** Removes the first equivalent element, if there is one. */
    method Remove(value: T) returns (removed: bool)
      requires Valid()
      modifies this`data
      ensures Valid() && data == Spec.Remove(less, old(data), value)
      ensures removed <==> exists i :: 0 <= i < |old(data)| && Equivalent(less, old(data)[i], value)
      ensures removed ==> exists k ::
        && 0 <= k < |old(data)| && Equivalent(less, old(data)[k], value)
        && (forall i :: 0 <= i < k ==> !Equivalent(less, old(data)[i], value))
        && data == old(data)[..k] + old(data)[k + 1..]
    {
      var k := Find(value);
      removed := k != |data|;
      if removed {
        data := data[..k] + data[k + 1..];
      }
    }

    /** Removes by index; an index out of range is an exception and changes nothing. */
    method RemoveAt(index: nat) returns (threw: bool)
      requires Valid()
      modifies this`data
      ensures Valid() && (threw <==> index >= |old(data)|)
      ensures data == if threw then old(data) else old(data)[..index] + old(data)[index + 1..]
    {
      threw := index >= |data|;
      if !threw {
        data := data[..index] + data[index + 1..];
      }
    }

    method Clear()
      modifies this`data
      ensures data == []
    {
      data := [];
    }

    /** Changes the mode only; equivalents already in the list stay. */
    method SetUnique(unique: bool)
      modifies this`unique
      ensures this.unique == unique
    {
      this.unique := unique;
    }
  }
}
