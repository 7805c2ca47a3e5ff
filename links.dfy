/**
  The link pattern of `delete_links`,
    http[s]?://(?:[a-zA-Z]|[0-9]|[$-_@.&+]|[!*\\(\\),]|(?:%[0-9a-fA-F][0-9a-fA-F]))+
  and `re.sub(pattern, "", text)`.

  Every alternative inside the repetition matches URL characters only, one
  at a time (the `%XX` alternative is covered by the `$`..`_` range), and
  nothing follows the greedy `+`, so a match is `http://` or `https://`
  followed by the longest non-empty run of URL characters.
 */
module Links {
  import opened Text

  /**
    The characters the repetition accepts: ASCII letters and digits, the
    range `$` (0x24) to `_` (0x5F) written as `$-_`, and `!*\(),`.
   */
  predicate UrlChar(c: char)
  {
    || ('a' <= c <= 'z') || ('A' <= c <= 'Z') || ('0' <= c <= '9')
    || ('$' <= c <= '_')
    || c == '!' || c == '*' || c == '\\' || c == '(' || c == ')' || c == ','
  }

  /** Length of the longest prefix of `t` made of URL characters. */
  function RunLength(t: string): (n: nat)
    ensures n <= |t|
    ensures forall i :: 0 <= i < n ==> UrlChar(t[i])
    ensures n < |t| ==> !UrlChar(t[n])
  {
    if t != [] && UrlChar(t[0]) then 1 + RunLength(t[1..]) else 0
  }

  /**
    The pattern matches at the start of `t`. `[s]?` first tries to take the
    `s`; when that fails, the retry without it needs `:` where `t` has `s`.
   */
  predicate StartsLink(t: string)
  {
    IsHttps(t) || IsHttp(t)
  }

  /** `https://` followed by a URL character. */
  predicate IsHttps(t: string)
  {
    HasPrefix(t, "https://") && |t| > 8 && UrlChar(t[8])
  }

  /** `http://` followed by a URL character. */
  predicate IsHttp(t: string)
  {
    HasPrefix(t, "http://") && |t| > 7 && UrlChar(t[7])
  }

  /** Length of the match at the start of `t`, or 0 when there is none. */
  function LinkLength(t: string): (n: nat)
    ensures n <= |t|
    ensures n > 0 <==> StartsLink(t)
  {
    if IsHttps(t) then 8 + RunLength(t[8..])
    else if IsHttp(t) then 7 + RunLength(t[7..])
    else 0
  }

  /** `re.sub(pattern, "", s)`: leftmost matches removed, scanning on after each one. */
  function StripLinks(s: string): (r: string)
    ensures |r| <= |s|
    decreases |s|
  {
    if s == [] then []
    else if StartsLink(s) then StripLinks(s[LinkLength(s)..])
    else [s[0]] + StripLinks(s[1..])
  }

  /** No position of `s` starts a match. */
  predicate LinkFree(s: string)
  {
    forall i :: 0 <= i <= |s| ==> !StartsLink(s[i..])
  }

  /** A match never ends in front of a URL character. */
  lemma LinkEndsAtBoundary(t: string)
    requires StartsLink(t)
    ensures LinkLength(t) < |t| ==> !UrlChar(t[LinkLength(t)])
  {
    if IsHttps(t) {
      assert t[8..][RunLength(t[8..])..] == t[LinkLength(t)..];
    } else {
      assert t[7..][RunLength(t[7..])..] == t[LinkLength(t)..];
    }
  }

  /**
    As long as the output of `StripLinks` shows URL characters only, it
    shows the input unchanged: a removed match is always followed by a
    character that is not a URL character, or by the end.
   */
  lemma {:induction false} UrlPrefixKept(t: string, k: nat)
    requires k <= |StripLinks(t)|
    requires forall j :: 0 <= j < k ==> UrlChar(StripLinks(t)[j])
    ensures k <= |t|
    ensures forall j :: 0 <= j < k ==> StripLinks(t)[j] == t[j]
    decreases |t|
  {
    if k > 0 {
      if StartsLink(t) {
        var rest := t[LinkLength(t)..];
        assert StripLinks(t) == StripLinks(rest);
        LinkEndsAtBoundary(t);
        assert rest != [] by { assert |StripLinks(rest)| <= |rest|; }
        NonUrlHeadKept(rest);
        assert false;
      } else {
        var r := StripLinks(t[1..]);
        assert StripLinks(t) == [t[0]] + r;
        assert forall j :: 0 <= j < k - 1 ==> r[j] == StripLinks(t)[j + 1];
        UrlPrefixKept(t[1..], k - 1);
      }
    }
  }

  /** A character that is not a URL character cannot start a match, and is kept. */
  lemma NonUrlHeadKept(u: string)
    requires u != [] && !UrlChar(u[0])
    ensures StripLinks(u) == [u[0]] + StripLinks(u[1..])
    ensures StripLinks(u)[0] == u[0]
  {
    assert u[0] != 'h';
    assert !IsHttps(u) && !IsHttp(u);
  }

  /** The characters of "https://" and "http://" are URL characters. */
  lemma SchemeIsUrl(t: string)
    requires StartsLink(t)
    ensures IsHttps(t) ==> forall j :: 0 <= j < 9 ==> UrlChar(t[j])
    ensures IsHttp(t) ==> forall j :: 0 <= j < 8 ==> UrlChar(t[j])
  {
    if HasPrefix(t, "https://") {
      assert t[..8] == "https://";
      assert forall j :: 0 <= j < 8 ==> t[j] == "https://"[j];
    }
    if HasPrefix(t, "http://") {
      assert t[..7] == "http://";
      assert forall j :: 0 <= j < 7 ==> t[j] == "http://"[j];
    }
  }

  /** Whether `t` starts a match depends on its first nine characters only. */
  lemma StartsLinkSameWindow(t: string, u: string, k: nat)
    requires StartsLink(t)
    requires IsHttps(t) ==> k >= 9
    requires k >= 8
    requires k <= |t| && k <= |u| && t[..k] == u[..k]
    ensures StartsLink(u)
  {
    if IsHttps(t) {
      assert u[..8] == t[..k][..8];
      assert u[8] == t[..k][8];
    } else {
      assert u[..7] == t[..k][..7];
      assert u[7] == t[..k][7];
    }
  }

  /** No link survives the removal: re-running the scan on the output finds nothing. */
  lemma {:induction false} StripLinksLinkFree(s: string)
    ensures LinkFree(StripLinks(s))
    decreases |s|
  {
    if s == [] {
      assert !StartsLink(StripLinks(s)[0..]);
    } else if StartsLink(s) {
      StripLinksLinkFree(s[LinkLength(s)..]);
    } else {
      var r := StripLinks(s[1..]);
      var out := [s[0]] + r;
      assert StripLinks(s) == out;
      StripLinksLinkFree(s[1..]);
      KeptHeadNoLink(s);
      forall i | 0 <= i <= |out| ensures !StartsLink(out[i..]) {
        if i > 0 { assert out[i..] == r[i - 1..]; }
      }
    }
  }

  /** A kept first character does not start a link in the output. */
  lemma KeptHeadNoLink(s: string)
    requires s != [] && !StartsLink(s)
    ensures !StartsLink([s[0]] + StripLinks(s[1..]))
  {
    if StartsLink([s[0]] + StripLinks(s[1..])) {
      LinkInKeptHead(s);
    }
  }

  /**
    A link at the start of "first character, then the cleaned rest" was
    already a link at the start of the input: its first nine characters
    are URL characters, which the removal shows unchanged.
   */
  lemma LinkInKeptHead(s: string)
    requires s != [] && StartsLink([s[0]] + StripLinks(s[1..]))
    ensures StartsLink(s)
  {
    var r := StripLinks(s[1..]);
    var out := [s[0]] + r;
    SchemeIsUrl(out);
    var k := if IsHttps(out) then 9 else 8;
    TailOfUrlRun(s[0], r, k);
    UrlPrefixKept(s[1..], k - 1);
    SameWindow(s, r, k);
    StartsLinkSameWindow(out, s, k);
  }

  lemma TailOfUrlRun(x: char, r: string, k: nat)
    requires 1 <= k <= |r| + 1
    requires forall j :: 0 <= j < k ==> UrlChar(([x] + r)[j])
    ensures forall j :: 0 <= j < k - 1 ==> UrlChar(r[j])
  {
    forall j | 0 <= j < k - 1 ensures UrlChar(r[j]) { assert r[j] == ([x] + r)[j + 1]; }
  }

  lemma SameWindow(s: string, r: string, k: nat)
    requires s != [] && 1 <= k <= |s| && k - 1 <= |r|
    requires forall j :: 0 <= j < k - 1 ==> r[j] == s[1..][j]
    ensures k <= |[s[0]] + r| && ([s[0]] + r)[..k] == s[..k]
  {
    var out := [s[0]] + r;
    forall j | 0 <= j < k ensures out[j] == s[j] {
      if j > 0 { assert out[j] == r[j - 1]; }
    }
  }

  /** Text without a link is copied unchanged. */
  lemma {:induction false} LinkFreeUnchanged(s: string)
    requires LinkFree(s)
    ensures StripLinks(s) == s
    decreases |s|
  {
    if s != [] {
      assert s[0..] == s;
      assert LinkFree(s[1..]) by {
        forall i | 0 <= i <= |s[1..]| ensures !StartsLink(s[1..][i..]) { assert s[1..][i..] == s[i + 1..]; }
      }
      LinkFreeUnchanged(s[1..]);
    }
  }

  /** Text that holds a link comes out strictly shorter. */
  lemma {:induction false} LinkShortens(s: string)
    requires !LinkFree(s)
    ensures |StripLinks(s)| < |s|
    decreases |s|
  {
    if !StartsLink(s) {
      var i :| 0 <= i <= |s| && StartsLink(s[i..]);
      assert i > 0 by { assert s[0..] == s; }
      assert s[1..][i - 1..] == s[i..];
      LinkShortens(s[1..]);
    }
  }

  /** `re.sub` leaves the text as it was exactly when it holds no link. */
  lemma StripLinksUnchangedIff(s: string)
    ensures StripLinks(s) == s <==> LinkFree(s)
  {
    if LinkFree(s) { LinkFreeUnchanged(s); } else { LinkShortens(s); }
  }

  lemma StripLinksIdempotent(s: string)
    ensures StripLinks(StripLinks(s)) == StripLinks(s)
  {
    StripLinksLinkFree(s);
    LinkFreeUnchanged(StripLinks(s));
  }

  /**
    A match cannot reach across a character that is not a URL character, so
    the removal works on each side of such a character (a space, `"`, `#`,
    a non-ASCII letter, ...) independently.
   */
  lemma {:induction false} StripLinksAroundSeparator(a: string, c: char, b: string)
    requires !UrlChar(c)
    ensures StripLinks(a + [c] + b) == StripLinks(a) + [c] + StripLinks(b)
    decreases |a|
  {
    var s := a + [c] + b;
    if a == [] {
      assert s == [c] + b;
      NonUrlHeadKept(s);
      assert s[1..] == b;
    } else if StartsLink(a) {
      var n := LinkLength(a);
      SkipLinkAcross(a, c, b);
      StripLinksAroundSeparator(a[n..], c, b);
    } else {
      KeepHeadAcross(a, c, b);
      StripLinksAroundSeparator(a[1..], c, b);
      var x, y := StripLinks(a[1..]), StripLinks(b);
      assert StripLinks(a) == [a[0]] + x;
      assert [a[0]] + (x + [c] + y) == [a[0]] + x + [c] + y;
    }
  }

  /** A link at the start of `a` is removed the same way when `c` and `b` follow. */
  lemma SkipLinkAcross(a: string, c: char, b: string)
    requires !UrlChar(c) && StartsLink(a)
    ensures StripLinks(a + [c] + b) == StripLinks(a[LinkLength(a)..] + [c] + b)
    ensures StripLinks(a) == StripLinks(a[LinkLength(a)..])
  {
    var s := a + [c] + b;
    var n := LinkLength(a);
    StartsLinkLocal(a, c, b);
    LinkLengthLocal(a, c, b);
    assert s[n..] == a[n..] + [c] + b;
  }

  /** A first character of `a` that starts no link is kept the same way when `c` and `b` follow. */
  lemma KeepHeadAcross(a: string, c: char, b: string)
    requires !UrlChar(c) && a != [] && !StartsLink(a)
    ensures StripLinks(a + [c] + b) == [a[0]] + StripLinks(a[1..] + [c] + b)
  {
    var s := a + [c] + b;
    StartsLinkLocal(a, c, b);
    assert s[1..] == a[1..] + [c] + b;
  }

  lemma {:induction false} RunLengthLocal(a: string, c: char, b: string)
    requires !UrlChar(c)
    ensures RunLength(a + [c] + b) == RunLength(a)
    decreases |a|
  {
    if a == [] {
      assert (a + [c] + b)[0] == c;
    } else {
      assert (a + [c] + b)[1..] == a[1..] + [c] + b;
      RunLengthLocal(a[1..], c, b);
    }
  }

  lemma StartsLinkLocal(a: string, c: char, b: string)
    requires !UrlChar(c)
    ensures StartsLink(a + [c] + b) <==> StartsLink(a)
  {
    var s := a + [c] + b;
    if StartsLink(s) {
      SchemeIsUrl(s);
      var k := if IsHttps(s) then 9 else 8;
      assert s[|a|] == c;
      assert |a| >= k;
      assert s[..k] == a[..k];
      StartsLinkSameWindow(s, a, k);
    }
    if StartsLink(a) {
      SchemeIsUrl(a);
      var k := if IsHttps(a) then 9 else 8;
      assert s[..k] == a[..k];
      StartsLinkSameWindow(a, s, k);
    }
  }

  lemma LinkLengthLocal(a: string, c: char, b: string)
    requires !UrlChar(c) && StartsLink(a)
    ensures LinkLength(a + [c] + b) == LinkLength(a)
  {
    var s := a + [c] + b;
    StartsLinkLocal(a, c, b);
    SchemeIsUrl(a);
    if IsHttps(a) {
      assert s[..8] == a[..8];
      assert s[8..] == a[8..] + [c] + b;
      RunLengthLocal(a[8..], c, b);
    } else {
      assert s[..7] == a[..7];
      assert !IsHttps(s) by {
        if HasPrefix(s, "https://") { assert s[4] == a[4] == 's'; assert a[..7][4] == "http://"[4]; }
      }
      assert s[7..] == a[7..] + [c] + b;
      RunLengthLocal(a[7..], c, b);
    }
  }
}
