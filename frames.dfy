/**
  The part of a pandas DataFrame the preprocessing code touches: ordered
  column labels, one column of cells per label and a row count. Dropping a
  column (`drop(m, inplace=True, axis=1)`) and storing one
  (`data[name] = values`) change the frame in place.

  Also here, because all three classes share them: the column denylist with
  its pruning loop, and the `delete_links` step that fills column `tweet`.
 */
module Frames {
  import opened Wrappers
  import opened Links

  /** One cell; `None` is a missing value (NaN in a CSV that was read in). */
  type Cell = Option<string>

  /** `str(x)` of a cell: a missing value reads as "nan". */
  function CellText(c: Cell): string
  {
    match c
    case Some(s) => s
    case None => "nan"
  }

  predicate Distinct(s: seq<string>)
  {
    forall i, j :: 0 <= i < j < |s| ==> s[i] != s[j]
  }

  /** `x` stands somewhere before `y` in `s`. */
  ghost predicate Before(s: seq<string>, x: string, y: string)
  {
    exists i, j :: 0 <= i < j < |s| && s[i] == x && s[j] == y
  }

  /** The columns of `cols` that are not on `denylist`, in their order. */
  function Prune(cols: seq<string>, denylist: seq<string>): seq<string>
  {
    if cols == [] then []
    else (if cols[0] in denylist then [] else [cols[0]]) + Prune(cols[1..], denylist)
  }

  /** The columns the preprocessing drops (the `useless` list of all three classes). */
  const Useless: seq<string> := [
    "userid",
    "tweetid",
    "following",
    "totaltweets",
    "original_tweet_id",
    "original_tweet_user_id",
    "original_tweet_username",
    "in_reply_to_status_id",
    "in_reply_to_user_id",
    "in_reply_to_screen_name",
    "is_quote_status",
    "quoted_status_id",
    "quoted_status_userid",
    "quoted_status_username",
    "extractedts",
    "coordinates"
  ]

  /** The columns the later steps read or write are not on the denylist. */
  lemma WorkColumnsKept()
    ensures "location" !in Useless && "text" !in Useless && "tweet" !in Useless
    ensures "country" !in Useless && "ISO" !in Useless
  {
    NotListed("location", Useless);
    NotListed("text", Useless);
    NotListed("tweet", Useless);
    NotListed("country", Useless);
    NotListed("ISO", Useless);
  }

  /** A name that differs from every entry in length or in its first letter is not on the list. */
  lemma NotListed(x: string, names: seq<string>)
    requires x != []
    requires forall i :: 0 <= i < |names| ==> |names[i]| != |x| || names[i][0] != x[0]
    ensures x !in names
  {
  }

  class Frame {
    var columns: seq<string>
    var cells: map<string, seq<Cell>>
    var height: nat

    /** Labels are distinct (pandas' CSV reader renames repeated headers) and every column has `height` cells. */
    ghost predicate Valid()
      reads this
    {
      && Distinct(columns)
      && (forall c :: c in cells <==> c in columns)
      && (forall c | c in cells :: |cells[c]| == height)
    }

    /** A frame as the CSV reader hands it over. */
    constructor (columns: seq<string>, cells: map<string, seq<Cell>>, height: nat)
      requires Distinct(columns)
      requires forall c :: c in cells <==> c in columns
      requires forall c | c in cells :: |cells[c]| == height
      ensures Valid()
      ensures this.columns == columns && this.cells == cells && this.height == height
    {
      this.columns := columns;
      this.cells := cells;
      this.height := height;
    }

    /** `drop(name, inplace=True, axis=1)`; pandas raises KeyError for an absent label. */
    method Drop(name: string)
      requires Valid() && name in columns
      modifies this
      ensures Valid()
      ensures columns == Prune(old(columns), [name])
      ensures cells == old(cells) - {name}
      ensures height == old(height)
    {
      PruneMembers(columns, [name]);
      PruneDistinct(columns, [name]);
      columns := Prune(columns, [name]);
      cells := cells - {name};
    }

    /** `data[name] = values`: replaces the column in place, or appends it as the last one. */
    method Store(name: string, values: seq<Cell>)
      requires Valid() && |values| == height
      modifies this
      ensures Valid()
      ensures columns == if name in old(columns) then old(columns) else old(columns) + [name]
      ensures cells == old(cells)[name := values]
      ensures height == old(height)
    {
      if name !in columns {
        columns := columns + [name];
      }
      cells := cells[name := values];
    }
  }

  /**
    The loop `for m in useless: if m in data.columns: data.drop(m, inplace=True, axis=1)`:
    the denylisted columns that are present go, absent ones are skipped,
    the other columns and every row stay as they were.
   */
  method PruneColumns(f: Frame, denylist: seq<string>)
    requires f.Valid()
    modifies f
    ensures f.Valid()
    ensures f.columns == Prune(old(f.columns), denylist)
    ensures forall c | c in f.cells :: c in old(f.cells) && f.cells[c] == old(f.cells)[c]
    ensures f.height == old(f.height)
  {
    PruneUnchangedIff(f.columns, []);
    for i := 0 to |denylist|
      invariant f.Valid()
      invariant f.columns == Prune(old(f.columns), denylist[..i])
      invariant forall c | c in f.cells :: c in old(f.cells) && f.cells[c] == old(f.cells)[c]
      invariant f.height == old(f.height)
    {
      var m := denylist[i];
      PruneOneMore(old(f.columns), denylist[..i], m);
      if m in f.columns {
        f.Drop(m);
      } else {
        PruneUnchangedIff(f.columns, [m]);
      }
      assert denylist[..i + 1] == denylist[..i] + [m];
    }
    assert denylist[..|denylist|] == denylist;
  }

  /** The cleaned column: `re.sub(link, "", str(x))` for every cell of `texts`. */
  function Cleaned(texts: seq<Cell>): (r: seq<Cell>)
    ensures |r| == |texts|
  {
    seq(|texts|, i requires 0 <= i < |texts| => Some(StripLinks(CellText(texts[i]))))
  }

  /**
    `data["tweet"] = data["text"].apply(lambda x: re.sub(link, "", str(x)))`.
    Without a `text` column pandas raises KeyError and nothing changes.
   */
  method DeleteLinks(f: Frame) returns (ok: bool)
    requires f.Valid()
    modifies f
    ensures f.Valid()
    ensures ok <==> "text" in old(f.columns)
    ensures !ok ==> f.columns == old(f.columns) && f.cells == old(f.cells)
    ensures ok ==> f.cells == old(f.cells)["tweet" := Cleaned(old(f.cells)["text"])]
    ensures ok ==> f.cells["text"] == old(f.cells)["text"]
    ensures ok ==> f.columns == if "tweet" in old(f.columns) then old(f.columns) else old(f.columns) + ["tweet"]
    ensures f.height == old(f.height)
  {
    if "text" !in f.columns {
      return false;
    }
    f.Store("tweet", Cleaned(f.cells["text"]));
    ok := true;
  }

  /**
    What the cleaned column holds: one cell per row, no link left in any of
    them, none longer than the text it came from, and a text without a link
    copied as it was.
   */
  lemma CleanedColumn(texts: seq<Cell>)
    ensures |Cleaned(texts)| == |texts|
    ensures forall i :: 0 <= i < |texts| ==>
      && Cleaned(texts)[i].Some?
      && LinkFree(Cleaned(texts)[i].value)
      && |Cleaned(texts)[i].value| <= |CellText(texts[i])|
      && (Cleaned(texts)[i].value == CellText(texts[i]) <==> LinkFree(CellText(texts[i])))
  {
    forall i | 0 <= i < |texts|
      ensures LinkFree(Cleaned(texts)[i].value)
      ensures Cleaned(texts)[i].value == CellText(texts[i]) <==> LinkFree(CellText(texts[i]))
    {
      StripLinksLinkFree(CellText(texts[i]));
      StripLinksUnchangedIff(CellText(texts[i]));
    }
  }

  /** A column survives pruning exactly when it was there and is not denylisted. */
  lemma {:induction false} PruneMembers(cols: seq<string>, denylist: seq<string>)
    ensures forall x :: x in Prune(cols, denylist) <==> x in cols && x !in denylist
  {
    if cols != [] {
      PruneMembers(cols[1..], denylist);
      assert cols == [cols[0]] + cols[1..];
    }
  }

  lemma {:induction false} PruneDistinct(cols: seq<string>, denylist: seq<string>)
    requires Distinct(cols)
    ensures Distinct(Prune(cols, denylist))
  {
    if cols != [] {
      PruneDistinct(cols[1..], denylist);
      PruneMembers(cols[1..], denylist);
      assert cols[0] !in cols[1..];
    }
  }

  /** Dropping one more name after pruning is pruning with the longer list. */
  lemma {:induction false} PruneOneMore(cols: seq<string>, denylist: seq<string>, m: string)
    ensures Prune(Prune(cols, denylist), [m]) == Prune(cols, denylist + [m])
  {
    if cols != [] {
      PruneOneMore(cols[1..], denylist, m);
      var p := Prune(cols[1..], denylist);
      assert cols[0] in denylist + [m] <==> cols[0] in denylist || cols[0] == m;
      if cols[0] in denylist {
        assert Prune(cols, denylist) == p;
      } else {
        assert Prune(cols, denylist) == [cols[0]] + p;
        assert ([cols[0]] + p)[1..] == p;
      }
    }
  }

  /** Pruning changes nothing exactly when no column is on the list. */
  lemma {:induction false} PruneUnchangedIff(cols: seq<string>, denylist: seq<string>)
    ensures Prune(cols, denylist) == cols <==> forall x :: x in cols ==> x !in denylist
  {
    if cols != [] {
      PruneUnchangedIff(cols[1..], denylist);
      assert |Prune(cols[1..], denylist)| <= |cols[1..]| by { PruneShorter(cols[1..], denylist); }
      if cols[0] in denylist {
        assert Prune(cols, denylist) != cols;
      }
    }
  }

  lemma {:induction false} PruneShorter(cols: seq<string>, denylist: seq<string>)
    ensures |Prune(cols, denylist)| <= |cols|
  {
    if cols != [] { PruneShorter(cols[1..], denylist); }
  }

  /** Running the same pruning again removes nothing further. */
  lemma PruneIdempotent(cols: seq<string>, denylist: seq<string>)
    ensures Prune(Prune(cols, denylist), denylist) == Prune(cols, denylist)
  {
    PruneMembers(cols, denylist);
    PruneUnchangedIff(Prune(cols, denylist), denylist);
  }

  /** Two kept columns stand in the same relative order before and after pruning. */
  lemma PruneKeepsOrder(cols: seq<string>, denylist: seq<string>, x: string, y: string)
    requires x !in denylist && y !in denylist
    ensures Before(Prune(cols, denylist), x, y) <==> Before(cols, x, y)
  {
    if Before(Prune(cols, denylist), x, y) { PruneOrderBack(cols, denylist, x, y); }
    if Before(cols, x, y) { PruneOrderForth(cols, denylist, x, y); }
  }

  lemma {:induction false} PruneOrderBack(cols: seq<string>, denylist: seq<string>, x: string, y: string)
    requires Before(Prune(cols, denylist), x, y)
    ensures Before(cols, x, y)
  {
    var r := Prune(cols, denylist);
    var p := Prune(cols[1..], denylist);
    var i, j :| 0 <= i < j < |r| && r[i] == x && r[j] == y;
    if cols[0] in denylist {
      assert r == p;
      PruneOrderBack(cols[1..], denylist, x, y);
      BeforeTail(cols, x, y);
    } else {
      assert r == [cols[0]] + p;
      if i == 0 {
        PruneMembers(cols[1..], denylist);
        assert p[j - 1] == y;
        assert y in p;
        var j' :| 0 <= j' < |cols[1..]| && cols[1..][j'] == y;
        assert cols[0] == x && cols[j' + 1] == y;
      } else {
        assert p[i - 1] == x && p[j - 1] == y;
        PruneOrderBack(cols[1..], denylist, x, y);
        BeforeTail(cols, x, y);
      }
    }
  }

  lemma {:induction false} PruneOrderForth(cols: seq<string>, denylist: seq<string>, x: string, y: string)
    requires x !in denylist && y !in denylist
    requires Before(cols, x, y)
    ensures Before(Prune(cols, denylist), x, y)
  {
    var p := Prune(cols[1..], denylist);
    var i, j :| 0 <= i < j < |cols| && cols[i] == x && cols[j] == y;
    if i == 0 {
      assert cols[1..][j - 1] == y;
      PruneMembers(cols[1..], denylist);
      assert Prune(cols, denylist) == [x] + p;
      HeadBefore(x, p, y);
    } else {
      assert cols[1..][i - 1] == x && cols[1..][j - 1] == y;
      PruneOrderForth(cols[1..], denylist, x, y);
      if cols[0] in denylist {
        assert Prune(cols, denylist) == p;
      } else {
        assert Prune(cols, denylist) == [cols[0]] + p;
        assert ([cols[0]] + p)[1..] == p;
        BeforeTail([cols[0]] + p, x, y);
      }
    }
  }

  /** A head followed somewhere by `y` stands before it. */
  lemma HeadBefore(x: string, p: seq<string>, y: string)
    requires y in p
    ensures Before([x] + p, x, y)
  {
    var j :| 0 <= j < |p| && p[j] == y;
    assert ([x] + p)[0] == x && ([x] + p)[j + 1] == y;
  }

  /** `Before` on the tail lifts to the whole sequence. */
  lemma BeforeTail(cols: seq<string>, x: string, y: string)
    requires cols != [] && Before(cols[1..], x, y)
    ensures Before(cols, x, y)
  {
    var i, j :| 0 <= i < j < |cols[1..]| && cols[1..][i] == x && cols[1..][j] == y;
    assert cols[i + 1] == x && cols[j + 1] == y;
  }
}
