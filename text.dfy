/**
  The string and path primitives the preprocessing code calls: `str.split`
  with an explicit one-character separator, `str.strip()`, `str.replace`
  with an empty replacement, `os.path.basename` and `os.path.join` (POSIX).
 */
module Text {

  predicate HasPrefix(s: string, p: string)
  {
    |p| <= |s| && s[..|p|] == p
  }

  /** Number of occurrences of `c` in `s`. */
  function Count(s: string, c: char): nat
  {
    if s == [] then 0 else (if s[0] == c then 1 else 0) + Count(s[1..], c)
  }

  lemma {:induction false} CountAppend(a: string, b: string, c: char)
    ensures Count(a + b, c) == Count(a, c) + Count(b, c)
  {
    if a == [] {
      assert a + b == b;
    } else {
      assert (a + b)[1..] == a[1..] + b;
      CountAppend(a[1..], b, c);
    }
  }

  lemma {:induction false} CountAbsent(s: string, c: char)
    requires c !in s
    ensures Count(s, c) == 0
  {
    if s != [] { CountAbsent(s[1..], c); }
  }

  /** `s.split(sep)`: the pieces between separators, empty pieces included. */
  function Split(s: string, sep: char): (parts: seq<string>)
    ensures |parts| == Count(s, sep) + 1
  {
    if s == [] then [[]]
    else
      var rest := Split(s[1..], sep);
      if s[0] == sep then [[]] + rest else [[s[0]] + rest[0]] + rest[1..]
  }

  /** No piece holds the separator. */
  lemma {:induction false} SplitPiecesFree(s: string, sep: char)
    ensures forall i :: 0 <= i < |Split(s, sep)| ==> sep !in Split(s, sep)[i]
  {
    if s != [] {
      SplitPiecesFree(s[1..], sep);
      var rest := Split(s[1..], sep);
      if s[0] != sep {
        assert sep !in [s[0]] + rest[0];
      }
    }
  }

  /** `sep.join(parts)`, the inverse of `Split`. */
  function Join(parts: seq<string>, sep: char): string
    requires |parts| > 0
  {
    if |parts| == 1 then parts[0] else parts[0] + [sep] + Join(parts[1..], sep)
  }

  function Last<T>(xs: seq<T>): T
    requires |xs| > 0
  {
    xs[|xs| - 1]
  }

  lemma {:induction false} SplitJoin(s: string, sep: char)
    ensures Join(Split(s, sep), sep) == s
  {
    if s != [] {
      SplitJoin(s[1..], sep);
      var rest := Split(s[1..], sep);
      if s[0] == sep {
        assert ([[]] + rest)[1..] == rest;
        assert Join([[]] + rest, sep) == [] + [sep] + Join(rest, sep);
      } else {
        JoinPrepend([s[0]], rest, sep);
      }
      assert s == [s[0]] + s[1..];
    }
  }

  /** Prefixing the first piece prefixes the joined text. */
  lemma JoinPrepend(x: string, parts: seq<string>, sep: char)
    requires |parts| > 0
    ensures Join([x + parts[0]] + parts[1..], sep) == x + Join(parts, sep)
  {
    var p := [x + parts[0]] + parts[1..];
    assert p[1..] == parts[1..];
    if |parts| > 1 {
      assert x + parts[0] + [sep] + Join(parts[1..], sep) == x + (parts[0] + [sep] + Join(parts[1..], sep));
    }
  }

  lemma {:induction false} JoinSplit(parts: seq<string>, sep: char)
    requires |parts| > 0
    requires forall i :: 0 <= i < |parts| ==> sep !in parts[i]
    ensures Split(Join(parts, sep), sep) == parts
  {
    if |parts| == 1 {
      SplitWithoutSeparator(parts[0], sep);
    } else {
      JoinSplit(parts[1..], sep);
      SplitAppend(parts[0], Join(parts[1..], sep), sep);
      assert parts == [parts[0]] + parts[1..];
    }
  }

  /** Splitting `a + [sep] + b`, where `a` holds no separator. */
  lemma {:induction false} SplitAppend(a: string, b: string, sep: char)
    requires sep !in a
    ensures Split(a + [sep] + b, sep) == [a] + Split(b, sep)
  {
    if a == [] {
      assert a + [sep] + b == [sep] + b;
      assert ([sep] + b)[1..] == b;
    } else {
      SplitAppend(a[1..], b, sep);
      assert (a + [sep] + b)[1..] == a[1..] + [sep] + b;
      assert [a[0]] + a[1..] == a;
    }
  }

  /** A string without the separator splits into itself. */
  lemma {:induction false} SplitWithoutSeparator(s: string, sep: char)
    requires sep !in s
    ensures Split(s, sep) == [s]
  {
    if s != [] {
      SplitWithoutSeparator(s[1..], sep);
      assert [s[0]] + s[1..] == s;
    }
  }

  /** `s.split(c)[0]`: the text before the first `c`, or all of `s`. */
  function UpTo(s: string, c: char): string
  {
    if s == [] || s[0] == c then [] else [s[0]] + UpTo(s[1..], c)
  }

  /** `s.split(c)[-1]`: the text after the last `c`, or all of `s`. */
  function AfterLast(s: string, c: char): string
  {
    if s == [] || s[|s| - 1] == c then [] else AfterLast(s[..|s| - 1], c) + [s[|s| - 1]]
  }

  lemma {:induction false} SplitFirst(s: string, c: char)
    ensures Split(s, c)[0] == UpTo(s, c)
  {
    if s != [] { SplitFirst(s[1..], c); }
  }

  lemma {:induction false} SplitLast(s: string, c: char)
    ensures Last(Split(s, c)) == AfterLast(s, c)
    decreases |s|
  {
    if s != [] {
      var init, x := s[..|s| - 1], s[|s| - 1];
      assert s == init + [x];
      LastSnoc(init, x, c);
      SplitLast(init, c);
    }
  }

  /** Appending one character either opens a new, empty last piece or extends the last piece. */
  lemma {:induction false} LastSnoc(s: string, x: char, c: char)
    ensures Last(Split(s + [x], c)) == if x == c then [] else Last(Split(s, c)) + [x]
  {
    if s == [] {
      assert [] + [x] == [x];
      assert [x][1..] == [];
      assert [x] + [] == [] + [x];
    } else {
      var t := s + [x];
      assert t[1..] == s[1..] + [x];
      assert t[0] == s[0];
      LastSnoc(s[1..], x, c);
      CountAppend(s[1..], [x], c);
      assert Count([x], c) == if x == c then 1 else 0 by { assert [x][1..] == []; }
      LastCons(s, c);
      LastCons(t, c);
      if s[0] != c && x != c && Count(s[1..], c) == 0 {
        var r := Split(s[1..], c)[0];
        assert Last(Split(s[1..], c)) == r;
        assert [s[0]] + (r + [x]) == ([s[0]] + r) + [x];
      }
    }
  }

  /** The last piece of a text is the last piece of its tail, unless the head belongs to a sole first piece. */
  lemma LastCons(s: string, c: char)
    requires s != []
    ensures Last(Split(s, c)) == if s[0] != c && Count(s[1..], c) == 0 then [s[0]] + Split(s[1..], c)[0] else Last(Split(s[1..], c))
  {
    var r := Split(s[1..], c);
    var w := Split(s, c);
    if s[0] == c {
      assert w == [[]] + r;
    } else {
      assert w == [[s[0]] + r[0]] + r[1..];
      assert |w| == |r|;
      if |r| > 1 {
        assert w[|w| - 1] == r[|r| - 1];
      }
    }
  }

  lemma {:induction false} UpToFree(s: string, c: char)
    ensures c !in UpTo(s, c)
  {
    if s != [] && s[0] != c { UpToFree(s[1..], c); }
  }

  lemma UpToWithout(s: string, c: char)
    requires c !in s
    ensures UpTo(s, c) == s && AfterLast(s, c) == s
  {
    UpToAll(s, c);
    AfterLastAll(s, c);
  }

  lemma {:induction false} UpToAll(s: string, c: char)
    requires c !in s
    ensures UpTo(s, c) == s
  {
    if s != [] {
      assert s[0] in s;
      assert forall d :: d in s[1..] ==> d in s;
      UpToAll(s[1..], c);
      assert [s[0]] + s[1..] == s;
    }
  }

  lemma {:induction false} AfterLastAll(s: string, c: char)
    requires c !in s
    ensures AfterLast(s, c) == s
  {
    if s != [] {
      assert s[|s| - 1] in s;
      assert forall d :: d in s[..|s| - 1] ==> d in s;
      AfterLastAll(s[..|s| - 1], c);
      assert s[..|s| - 1] + [s[|s| - 1]] == s;
    }
  }

  /** Before the first separator: the part in front of it, when that part holds none. */
  lemma {:induction false} UpToFirst(a: string, c: char, b: string)
    requires c !in a
    ensures UpTo(a + [c] + b, c) == a
  {
    if a == [] {
      assert (a + [c] + b)[0] == c;
    } else {
      assert (a + [c] + b)[1..] == a[1..] + [c] + b;
      assert a[0] in a;
      assert forall d :: d in a[1..] ==> d in a;
      UpToFirst(a[1..], c, b);
      assert [a[0]] + a[1..] == a;
    }
  }

  /** After the last separator: the part behind it, when that part holds none. */
  lemma {:induction false} AfterLastOf(a: string, c: char, b: string)
    requires c !in b
    ensures AfterLast(a + [c] + b, c) == b
    decreases |b|
  {
    var s := a + [c] + b;
    if b == [] {
      assert s[|s| - 1] == c;
    } else {
      assert s[..|s| - 1] == a + [c] + b[..|b| - 1];
      assert s[|s| - 1] == b[|b| - 1];
      assert b[|b| - 1] in b;
      assert forall d :: d in b[..|b| - 1] ==> d in b;
      AfterLastOf(a, c, b[..|b| - 1]);
      assert b[..|b| - 1] + [b[|b| - 1]] == b;
    }
  }

  /** The characters Python's `str.isspace` accepts. */
  predicate IsSpace(c: char)
  {
    || ('\t' <= c <= '\r')
    || ('\U{1C}' <= c <= ' ')
    || c == '\U{85}' || c == '\U{A0}' || c == '\U{1680}'
    || ('\U{2000}' <= c <= '\U{200A}')
    || c == '\U{2028}' || c == '\U{2029}' || c == '\U{202F}' || c == '\U{205F}' || c == '\U{3000}'
  }

  function TrimLeft(s: string): (r: string)
    ensures |r| <= |s| && r == s[|s| - |r|..]
    ensures forall i :: 0 <= i < |s| - |r| ==> IsSpace(s[i])
    ensures r == [] || !IsSpace(r[0])
  {
    if s != [] && IsSpace(s[0]) then TrimLeft(s[1..]) else s
  }

  function TrimRight(s: string): (r: string)
    ensures |r| <= |s| && r == s[..|r|]
    ensures forall i :: |r| <= i < |s| ==> IsSpace(s[i])
    ensures r == [] || !IsSpace(r[|r| - 1])
  {
    if s != [] && IsSpace(s[|s| - 1]) then TrimRight(s[..|s| - 1]) else s
  }

  /** `s.strip()`: drop leading and trailing whitespace. */
  function Strip(s: string): string
  {
    TrimRight(TrimLeft(s))
  }

  lemma StripIdempotent(s: string)
    ensures Strip(Strip(s)) == Strip(s)
  {
    var t := Strip(s);
    assert TrimLeft(t) == t;
  }

  /** Text with no blank at either end is already stripped. */
  lemma StripUnpadded(s: string)
    requires s == [] || (!IsSpace(s[0]) && !IsSpace(s[|s| - 1]))
    ensures Strip(s) == s
  {
  }

  /** A leading blank is dropped. */
  lemma StripLeadingBlank(c: char, s: string)
    requires IsSpace(c)
    ensures Strip([c] + s) == Strip(s)
  {
    assert ([c] + s)[1..] == s;
  }

  /** Stripping never introduces a character. */
  lemma StripKeepsOut(s: string, c: char)
    requires c !in s
    ensures c !in Strip(s)
  {
    var l := TrimLeft(s);
    SliceKeepsOut(s, |s| - |l|, |s|, c);
    SliceKeepsOut(l, 0, |TrimRight(l)|, c);
  }

  lemma SliceKeepsOut(s: string, i: nat, j: nat, c: char)
    requires i <= j <= |s| && c !in s
    ensures c !in s[i..j]
  {
    forall k | 0 <= k < j - i ensures s[i..j][k] != c {
      assert s[i..j][k] == s[i + k];
    }
  }

  /** `os.path.basename(p)`: the text after the last '/'. */
  function Basename(p: string): (b: string)
    ensures '/' !in b
    ensures |b| <= |p| && b == p[|p| - |b|..]
    ensures |b| < |p| ==> p[|p| - |b| - 1] == '/'
  {
    if p == [] || p[|p| - 1] == '/' then []
    else Basename(p[..|p| - 1]) + [p[|p| - 1]]
  }

  lemma {:induction false} BasenameAfterSlash(dir: string, name: string)
    requires '/' !in name
    ensures Basename(dir + "/" + name) == name
  {
    var p := dir + "/" + name;
    assert p[|p| - |name| - 1] == '/';
  }

  /** A name without '/' is its own base name. */
  lemma {:induction false} BasenameOfName(p: string)
    requires '/' !in p
    ensures Basename(p) == p
  {
    if p != [] {
      assert p[|p| - 1] in p;
      assert forall c :: c in p[..|p| - 1] ==> c in p;
      BasenameOfName(p[..|p| - 1]);
    }
  }

  /** Concatenation regrouped; stated on variables so that literals are never unfolded. */
  lemma Reassoc(a: string, b: string, c: string)
    ensures a + b + c == a + (b + c)
  {
  }

  /** A component without '/' is never taken for an absolute path. */
  lemma NoSlashRelative(s: string)
    requires '/' !in s
    ensures !HasPrefix(s, "/")
  {
    if s != [] {
      assert s[0] in s;
      assert s[..1] == [s[0]];
    }
  }

  /** `os.path.join(a, b)` for two POSIX components. */
  function JoinPath(a: string, b: string): string
  {
    if HasPrefix(b, "/") then b
    else if a == [] || a[|a| - 1] == '/' then a + b
    else a + "/" + b
  }

  /** `s.replace(pat, "")`: every non-overlapping occurrence of `pat`, scanned left to right, removed. */
  function RemoveAll(s: string, pat: string): (r: string)
    requires |pat| > 0
    ensures |r| <= |s|
    decreases |s|
  {
    if s == [] then []
    else if HasPrefix(s, pat) then RemoveAll(s[|pat|..], pat)
    else [s[0]] + RemoveAll(s[1..], pat)
  }

  /** `s` contains no occurrence of `pat`. */
  predicate Free(s: string, pat: string)
  {
    forall i :: 0 <= i <= |s| ==> !HasPrefix(s[i..], pat)
  }

  /**
    ".csv" cannot overlap itself, so a first occurrence after a
    ".csv"-free stretch is removed and the scan goes on after it.
   */
  lemma {:induction false} RemoveCsvAfterFree(a: string, b: string)
    requires Free(a, ".csv")
    ensures RemoveAll(a + ".csv" + b, ".csv") == a + RemoveAll(b, ".csv")
  {
    var csv := ".csv";
    var s := a + csv + b;
    if a == [] {
      assert s == csv + b;
      PrefixThenRest(csv, b);
    } else {
      FreeHeadBeforeCsv(a, b);
      FreeTail(a, csv);
      RemoveCsvAfterFree(a[1..], b);
      Reassoc(a, csv, b);
      DropFirst(a, csv + b);
      Reassoc(a[1..], csv, b);
      var rest := RemoveAll(b, csv);
      assert RemoveAll(s, csv) == [a[0]] + (a[1..] + rest);
      DropFirst(a, rest);
    }
  }

  lemma PrefixThenRest(p: string, b: string)
    ensures HasPrefix(p + b, p) && (p + b)[|p|..] == b
  {
  }

  lemma DropFirst(a: string, b: string)
    requires a != []
    ensures (a + b)[1..] == a[1..] + b && a + b == [a[0]] + (a[1..] + b)
  {
  }

  /** In front of a ".csv"-free non-empty stretch, the scan does not match. */
  lemma FreeHeadBeforeCsv(a: string, b: string)
    requires a != [] && Free(a, ".csv")
    ensures !HasPrefix(a + ".csv" + b, ".csv")
  {
    var s := a + ".csv" + b;
    if |a| >= 4 {
      assert a[0..] == a;
      assert s[..4] == a[..4];
    } else {
      assert s[|a|] == '.';
      assert ".csv"[|a|] != '.';
    }
  }

  lemma FreeTail(a: string, pat: string)
    requires a != [] && Free(a, pat)
    ensures Free(a[1..], pat)
  {
    forall i | 0 <= i <= |a[1..]| ensures !HasPrefix(a[1..][i..], pat) {
      assert a[1..][i..] == a[i + 1..];
    }
  }

  lemma {:induction false} RemoveAllFree(s: string, pat: string)
    requires |pat| > 0 && Free(s, pat)
    ensures RemoveAll(s, pat) == s
  {
    if s != [] {
      assert s[0..] == s;
      FreeTail(s, pat);
      RemoveAllFree(s[1..], pat);
    }
  }
}
