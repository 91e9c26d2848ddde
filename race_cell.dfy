/** A shareable mutable container that keeps two copies of one logical value,
    so that a write which is only half done can be seen by a reader.

    The cell's `localContents` is held inline; its remote copy lives in a
    separately allocated `AtomicSlot`, which stands for the boxed atomic
    wrapper. Relaxed atomic loads and stores become plain reads and writes of
    a slot: a sequential model has no memory ordering to express. */
module RaceCells {

  /** Outcome of a read: both copies agreed and this is their value, or they
      disagreed because a write was caught half way. */
  datatype Racey<T> = Consistent(value: T) | Inconsistent

  /** The verdict of a read over the two loaded copies. */
  function Compare<T(==)>(localData: T, remoteData: T): (r: Racey<T>)
    ensures r.Consistent? <==> localData == remoteData
    ensures r.Consistent? ==> r.value == localData && r.value == remoteData
  {
    if localData == remoteData then Consistent(localData) else Inconsistent
  }

  /** An atomically accessed slot holding one value: the load/store wrapper
      a cell is built from. */
  class AtomicSlot<T> {
    var contents: T

    constructor (v: T)
      ensures contents == v
    {
      contents := v;
    }

    /** Loads the slot; nothing changes. */
    method RelaxedLoad() returns (v: T)
      ensures v == contents
    {
      v := contents;
    }

    /** Stores into the slot; only this slot changes. */
    method RelaxedStore(v: T)
      modifies this
      ensures contents == v
    {
      contents := v;
    }
  }

  class RaceCell<T(==)> {
    /** The copy stored inline in the cell. */
    var localContents: T
    /** The copy stored in a slot of its own; the cell owns it and never
        replaces it. */
    const remoteVersion: AtomicSlot<T>

    /** The cell is coherent when no write is half done. */
    ghost predicate Coherent()
      reads this, remoteVersion
    {
      localContents == remoteVersion.contents
    }

    /** Creates a cell whose two copies both hold `value`. */
    constructor (value: T)
      ensures localContents == value && remoteVersion.contents == value
      ensures Coherent()
      ensures fresh(remoteVersion)
    {
      localContents := value;
      remoteVersion := new AtomicSlot(value);
    }

    /** Creates a cell from two copies taken separately, which may differ. */
    constructor FromSlots(localCopy: T, remoteCopy: T)
      ensures localContents == localCopy && remoteVersion.contents == remoteCopy
      ensures fresh(remoteVersion)
    {
      localContents := localCopy;
      remoteVersion := new AtomicSlot(remoteCopy);
    }

    /** A whole write: the local copy first, then the remote one, as two
        separate stores. */
    method Set(value: T)
      modifies this, remoteVersion
      ensures localContents == value && remoteVersion.contents == value
      ensures Coherent()
    {
      StoreLocal(value);
      remoteVersion.RelaxedStore(value);
    }

    /** Only the first of the two stores of `Set`: the state a concurrent
        reader can observe between them. The remote copy keeps its value. */
    method StoreLocal(value: T)
      modifies this
      ensures localContents == value
      ensures remoteVersion.contents == old(remoteVersion.contents)
    {
      localContents := value;
    }

    /** Loads the local copy, then the remote copy, and compares them. Reads
        only: no slot changes. */
    method Get() returns (r: Racey<T>)
      ensures r.Consistent? <==> localContents == remoteVersion.contents
      ensures r.Consistent? ==> r.value == localContents
    {
      var localData := localContents;
      var remoteData := remoteVersion.RelaxedLoad();
      r := Compare(localData, remoteData);
    }

    /** Copies each slot as it stands, even when the two differ, into a new
        cell with its own remote slot. Reads only. */
    method Clone() returns (c: RaceCell<T>)
      ensures fresh(c) && fresh(c.remoteVersion)
      ensures c.localContents == localContents
      ensures c.remoteVersion.contents == remoteVersion.contents
    {
      var localCopy := localContents;
      var remoteCopy := remoteVersion.RelaxedLoad();
      c := new RaceCell.FromSlots(localCopy, remoteCopy);
    }
  }
}
