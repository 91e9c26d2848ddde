/** The cell's unit scenarios, stated for every value rather than for the
    one constant each scenario happens to use. Each method builds its own
    cell, so none of them changes anything its caller can see. */
module RaceCellTests {
  import opened RaceCells

  /** A new cell holds the initial value in both copies. */
  method InitialState<T(==)>(value: T) returns (localData: T, remoteData: T)
    ensures localData == value && remoteData == value
  {
    var cell := new RaceCell(value);
    localData := cell.localContents;
    remoteData := cell.remoteVersion.RelaxedLoad();
  }

  /** Reading a cell nobody has written since its creation gives back the
      initial value. */
  method ConsistentRead<T(==)>(value: T) returns (r: Racey<T>)
    ensures r == Consistent(value)
  {
    var cell := new RaceCell(value);
    r := cell.Get();
  }

  /** A cell caught after the local store of a write, with the remote copy
      still holding a different older value, reads as inconsistent. */
  method InconsistentRead<T(==)>(initial: T, written: T) returns (r: Racey<T>)
    requires initial != written
    ensures r == Inconsistent
  {
    var cell := new RaceCell(initial);
    cell.StoreLocal(written);
    r := cell.Get();
  }

  /** Cloning a torn cell copies each slot as it is: the clone's local copy
      is the newly stored value, its remote copy the older one, and its
      remote slot is not the original's. */
  method CloneAsIs<T(==)>(initial: T, written: T)
    returns (cloneLocal: T, cloneRemote: T, ownSlot: bool)
    ensures cloneLocal == written && cloneRemote == initial
    ensures ownSlot
  {
    var cell := new RaceCell(initial);
    cell.StoreLocal(written);
    var copy := cell.Clone();
    cloneLocal := copy.localContents;
    cloneRemote := copy.remoteVersion.RelaxedLoad();
    ownSlot := copy.remoteVersion != cell.remoteVersion;
  }

  /** With no writer, the clone of a new cell reads back its initial value. */
  method CloneRoundTrip<T(==)>(value: T) returns (r: Racey<T>)
    ensures r == Consistent(value)
  {
    var cell := new RaceCell(value);
    var copy := cell.Clone();
    r := copy.Get();
  }
}
