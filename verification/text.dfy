/** The two JavaScript string operations the profile handler applies to the
    comma-separated skills field: String.prototype.split with the one-character
    separator "," and String.prototype.trim. */
module Text {

  import opened Seqs

  /** The code points trim strips: the ECMAScript WhiteSpace set (tab,
      vertical tab, form feed, the byte order mark and every space separator)
      and the LineTerminator set (LF, CR, LS, PS). */
  predicate IsTrimmable(c: char)
  {
    || c == '\t' || c == '\n' || c == '\U{B}' || c == '\U{C}' || c == '\r'
    || c == ' ' || c == '\U{A0}' || c == '\U{1680}'
    || ('\U{2000}' <= c <= '\U{200A}')
    || c == '\U{2028}' || c == '\U{2029}' || c == '\U{202F}' || c == '\U{205F}'
    || c == '\U{3000}' || c == '\U{FEFF}'
  }

  predicate AllTrimmable(s: string)
  {
    forall i :: 0 <= i < |s| ==> IsTrimmable(s[i])
  }

  /** Neither end of `s` is a trimmable character. */
  predicate Clean(s: string)
  {
    |s| == 0 || (!IsTrimmable(s[0]) && !IsTrimmable(s[|s| - 1]))
  }

  /** Length of the longest all-trimmable prefix of `s`. */
  function LeadingCount(s: string): (n: nat)
    ensures n <= |s|
    ensures AllTrimmable(s[..n])
    ensures n < |s| ==> !IsTrimmable(s[n])
    decreases |s|
  {
    if |s| == 0 || !IsTrimmable(s[0]) then 0
    else
      var n := 1 + LeadingCount(s[1..]);
      assert forall i :: 1 <= i < n ==> s[..n][i] == s[1..][..n - 1][i - 1];
      n
  }

  /** Length of the longest all-trimmable suffix of `s`. */
  function TrailingCount(s: string): (n: nat)
    ensures n <= |s|
    ensures AllTrimmable(s[|s| - n..])
    ensures n < |s| ==> !IsTrimmable(s[|s| - n - 1])
    decreases |s|
  {
    if |s| == 0 || !IsTrimmable(s[|s| - 1]) then 0
    else
      var t := s[..|s| - 1];
      var m := TrailingCount(t);
      assert s[|s| - (m + 1)..] == t[|t| - m..] + [s[|s| - 1]];
      m + 1
  }

  /** String.prototype.trim: `s` without its leading and trailing trimmable
      characters. The result is an infix of `s` framed by trimmable padding. */
  function Trim(s: string): (r: string)
    ensures Clean(r)
    ensures exists i :: 0 <= i <= |s| - |r| && r == s[i..i + |r|]
                        && AllTrimmable(s[..i]) && AllTrimmable(s[i + |r|..])
  {
    var a := LeadingCount(s);
    var t := s[a..];
    var b := TrailingCount(t);
    var r := t[..|t| - b];
    assert r == s[a..a + |r|];
    assert AllTrimmable(s[a + |r|..]) by {
      assert s[a + |r|..] == t[|t| - b..];
    }
    assert Clean(r) by {
      if |r| > 0 {
        assert r[0] == s[a] && !IsTrimmable(s[a]);
        assert r[|r| - 1] == t[|t| - b - 1] && !IsTrimmable(t[|t| - b - 1]);
      }
    }
    r
  }

  lemma {:induction false} LeadingOfPadded(pre: string, rest: string)
    requires AllTrimmable(pre)
    requires |rest| == 0 || !IsTrimmable(rest[0])
    ensures LeadingCount(pre + rest) == |pre|
    decreases |pre|
  {
    if |pre| > 0 {
      assert (pre + rest)[0] == pre[0];
      assert (pre + rest)[1..] == pre[1..] + rest;
      LeadingOfPadded(pre[1..], rest);
    } else {
      assert pre + rest == rest;
    }
  }

  lemma {:induction false} TrailingOfPadded(rest: string, post: string)
    requires AllTrimmable(post)
    requires |rest| == 0 || !IsTrimmable(rest[|rest| - 1])
    ensures TrailingCount(rest + post) == |post|
    decreases |post|
  {
    var s := rest + post;
    if |post| > 0 {
      assert s[|s| - 1] == post[|post| - 1];
      assert s[..|s| - 1] == rest + post[..|post| - 1];
      TrailingOfPadded(rest, post[..|post| - 1]);
    } else {
      assert s == rest;
    }
  }

  /** Trim removes exactly the padding: whatever trimmable characters frame a
      clean core, trimming gives back that core. */
  lemma TrimPadded(pre: string, core: string, post: string)
    requires AllTrimmable(pre) && AllTrimmable(post) && Clean(core)
    ensures Trim(pre + core + post) == core
  {
    var s := pre + core + post;
    if |core| == 0 {
      assert s == (pre + post) + "";
      LeadingOfPadded(pre + post, "");
    } else {
      assert s == pre + (core + post);
      LeadingOfPadded(pre, core + post);
      assert s[|pre|..] == core + post;
      TrailingOfPadded(core, post);
      assert (core + post)[..|core|] == core;
    }
  }

  /** A string that is already clean is its own trim. */
  lemma TrimClean(s: string)
    requires Clean(s)
    ensures Trim(s) == s
  {
    TrimPadded("", s, "");
    assert "" + s + "" == s;
  }

  /** Array.prototype.join(",") */
  function Join(parts: seq<string>): string
    decreases |parts|
  {
    if |parts| == 0 then ""
    else if |parts| == 1 then parts[0]
    else parts[0] + "," + Join(parts[1..])
  }

  /** Position of the first comma in `s`, or `|s|`. */
  function FirstComma(s: string): (i: nat)
    ensures i <= |s|
    ensures i < |s| ==> s[i] == ','
    ensures ',' !in s[..i]
  {
    var i := IndexOf(s, c => c, ',');
    assert forall j :: 0 <= j < i ==> s[..i][j] == s[j];
    i
  }

  /** String.prototype.split(","): one part per comma-separated segment,
      empty segments included. */
  function Split(s: string): (parts: seq<string>)
    ensures |parts| == multiset(s)[','] + 1
    ensures forall k :: 0 <= k < |parts| ==> ',' !in parts[k]
    ensures Join(parts) == s
    decreases |s|
  {
    var i := FirstComma(s);
    if i == |s| then
      assert s[..i] == s;
      [s]
    else
      var rest := Split(s[i + 1..]);
      assert s == s[..i] + [','] + s[i + 1..];
      assert multiset(s) == multiset(s[..i]) + multiset{','} + multiset(s[i + 1..]);
      assert ([s[..i]] + rest)[1..] == rest;
      [s[..i]] + rest
  }

  /** Split of a comma-free segment followed by a comma and more text. */
  lemma SplitAfterSegment(w: string, t: string)
    requires ',' !in w
    ensures Split(w + "," + t) == [w] + Split(t)
  {
    var s := w + "," + t;
    assert s[|w|] == ',';
    assert s[..|w|] == w;
    assert FirstComma(s) == |w| by {
      assert forall j :: 0 <= j < |w| ==> s[j] == w[j];
    }
    assert s[|w| + 1..] == t;
  }

  /** A comma-free string splits into itself alone. */
  lemma SplitNoComma(w: string)
    requires ',' !in w
    ensures Split(w) == [w]
  {
    assert multiset(w)[','] == 0;
  }

  /** Splitting a join of comma-free segments gives the segments back. */
  lemma {:induction false} SplitJoin(parts: seq<string>)
    requires |parts| > 0
    requires forall k :: 0 <= k < |parts| ==> ',' !in parts[k]
    ensures Split(Join(parts)) == parts
    decreases |parts|
  {
    if |parts| == 1 {
      SplitNoComma(parts[0]);
    } else {
      var rest := parts[1..];
      assert forall k :: 0 <= k < |rest| ==> rest[k] == parts[k + 1];
      SplitJoin(rest);
      assert Join(parts) == parts[0] + "," + Join(rest);
      SplitAfterSegment(parts[0], Join(rest));
      assert parts == [parts[0]] + rest;
    }
  }
}
