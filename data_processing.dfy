/**
  `DataPreproccessing` (src/DataProcessing.py), a second draft of the
  cleaning pipeline: the same link removal and column denylist as
  `DataPreProcessor`, and its own output path.
 */
module DataProcessing {
  import opened Text
  import opened Frames

  const ProcessSuffix: string := "_PROCESS"

  /**
    The path `back_to_csv` writes: `os.path.join(route, basename(route) + "_PROCESS")`.
    The second component never starts with '/', so it is always appended to `route`.
   */
  function ProcessTarget(route: string): (target: string)
    ensures HasPrefix(target, route)
    ensures |target| == |route| + |Basename(route)| + |ProcessSuffix| + (if route == [] || route[|route| - 1] == '/' then 0 else 1)
    ensures target == route + (if route == [] || route[|route| - 1] == '/' then "" else "/") + Basename(route) + ProcessSuffix
  {
    var name := Basename(route) + ProcessSuffix;
    assert '/' !in name by {
      assert '/' !in ProcessSuffix;
    }
    NoSlashRelative(name);
    var sep: string := if route == [] || route[|route| - 1] == '/' then "" else "/";
    Reassoc(route, sep, name);
    Reassoc(route + sep, Basename(route), ProcessSuffix);
    assert route + "" == route;
    JoinPath(route, name)
  }

  /**
    For the usual input, a file `name` in folder `dir`, the target is a
    path below the input file itself, one level deeper, and keeps the
    ".csv" of the input name.
   */
  lemma {:induction false} ProcessTargetBelowInput(dir: string, name: string)
    requires name != [] && '/' !in name
    ensures ProcessTarget(dir + "/" + name) == dir + "/" + name + "/" + name + ProcessSuffix
  {
    var route := dir + "/" + name;
    BasenameAfterSlash(dir, name);
    assert route[|route| - 1] == name[|name| - 1];
    assert name[|name| - 1] in name;
    Reassoc(route + "/", name, ProcessSuffix);
  }

  class DataPreproccessing {
    /** `self.data`. */
    const data: Frame
    /** `self.route`: the path the CSV was read from. */
    const route: string

    ghost predicate Valid()
      reads this, data
    {
      data.Valid()
    }

    /** `__init__` once the CSV at `route` has been read into `frame`. */
    constructor (frame: Frame, route: string)
      requires frame.Valid()
      ensures Valid() && data == frame && this.route == route
    {
      data := frame;
      this.route := route;
    }

    /** `delete_links`: column `tweet` gets `text` with every link removed; the frame itself is returned. */
    method DeleteLinks() returns (ok: bool, frame: Frame)
      requires Valid()
      modifies data
      ensures Valid() && frame == data
      ensures ok <==> "text" in old(data.columns)
      ensures !ok ==> data.columns == old(data.columns) && data.cells == old(data.cells)
      ensures ok ==> data.cells == old(data.cells)["tweet" := Cleaned(old(data.cells)["text"])]
      ensures ok ==> data.columns == if "tweet" in old(data.columns) then old(data.columns) else old(data.columns) + ["tweet"]
      ensures data.height == old(data.height)
    {
      ok := Frames.DeleteLinks(data);
      frame := data;
    }

    /** `unnecessary_columns`: the denylisted columns that are present are dropped in place, and the same frame is returned. */
    method UnnecessaryColumns() returns (frame: Frame)
      requires Valid()
      modifies data
      ensures Valid() && frame == data
      ensures data.columns == Prune(old(data.columns), Useless)
      ensures forall x :: x in data.columns <==> x in old(data.columns) && x !in Useless
      ensures forall c | c in data.cells :: c in old(data.cells) && data.cells[c] == old(data.cells)[c]
      ensures data.height == old(data.height)
    {
      PruneColumns(data, Useless);
      PruneMembers(old(data.columns), Useless);
      frame := data;
    }

    /** The path `back_to_csv` hands to `to_csv`; the writing itself is not modelled. */
    function BackToCsvTarget(): (target: string)
      reads this
      ensures HasPrefix(target, route) && |target| > |route|
    {
      ProcessTarget(route)
    }
  }
}
