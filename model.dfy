/**
  `Model` (src/model.py): reads the tweet CSV into a frame and drops the
  denylisted columns from it in place.
 */
module Model {
  import opened Frames

  class Model {
    /** `self.data`. */
    const data: Frame

    /**
      `__init__` once the CSV has been read into `frame`: every denylisted
      column that is present is dropped, the rest keep their order and their
      cells, and the rows are untouched.
     */
    constructor (frame: Frame)
      requires frame.Valid()
      modifies frame
      ensures data == frame && data.Valid()
      ensures data.columns == Prune(old(frame.columns), Useless)
      ensures forall x :: x in data.columns <==> x in old(frame.columns) && x !in Useless
      ensures forall c | c in data.cells :: c in old(frame.cells) && data.cells[c] == old(frame.cells)[c]
      ensures data.height == old(frame.height)
    {
      data := frame;
      new;
      PruneColumns(frame, Useless);
      PruneMembers(old(frame.columns), Useless);
    }
  }
}
