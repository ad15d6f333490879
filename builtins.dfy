/** The parts of Python's built-in str and list behaviour that the env-file code relies on:
    str.strip, str.split with a one-character separator, and list comprehensions with a filter. */
module Builtins {

  /** The characters for which Python's str.isspace() holds; str.strip() with no argument
      removes exactly these from both ends. */
  const Whitespace: set<char> := {
    '\t', '\n', '\U{0B}', '\U{0C}', '\r', '\U{1C}', '\U{1D}', '\U{1E}', '\U{1F}', ' ',
    '\U{85}', '\U{A0}', '\U{1680}',
    '\U{2000}', '\U{2001}', '\U{2002}', '\U{2003}', '\U{2004}', '\U{2005}', '\U{2006}',
    '\U{2007}', '\U{2008}', '\U{2009}', '\U{200A}',
    '\U{2028}', '\U{2029}', '\U{202F}', '\U{205F}', '\U{3000}'
  }

  /** Double quotes, parentheses and number signs are not whitespace. */
  lemma PunctuationIsNotWhitespace()
    ensures '"' !in Whitespace && ')' !in Whitespace && '#' !in Whitespace
  {
  }

  /** s.lstrip(cs): the suffix of s left after dropping the longest prefix of characters in cs. */
  function LStrip(s: string, cs: set<char>): (r: string)
    ensures |r| <= |s| && r == s[|s| - |r|..]
    ensures forall k :: 0 <= k < |s| - |r| ==> s[k] in cs
    ensures r == [] || r[0] !in cs
  {
    if |s| > 0 && s[0] in cs then
      var r := LStrip(s[1..], cs);
      assert s[1..][|s| - 1 - |r|..] == s[|s| - |r|..];
      assert forall k :: 1 <= k < |s| - |r| ==> s[k] == s[1..][k - 1];
      r
    else s
  }

  /** s.rstrip(cs): the prefix of s left after dropping the longest suffix of characters in cs. */
  function RStrip(s: string, cs: set<char>): (r: string)
    ensures |r| <= |s| && r == s[..|r|]
    ensures forall k :: |r| <= k < |s| ==> s[k] in cs
    ensures r == [] || r[|r| - 1] !in cs
  {
    if |s| > 0 && s[|s| - 1] in cs then
      var r := RStrip(s[..|s| - 1], cs);
      assert s[..|s| - 1][..|r|] == s[..|r|];
      assert forall k :: |r| <= k < |s| - 1 ==> s[k] == s[..|s| - 1][k];
      r
    else s
  }

  /** s.strip(cs): the slice of s left after dropping the longest prefix and then the longest
      suffix of characters in cs; it neither starts nor ends with a character of cs, and it is
      s itself when s had no such character at either end. */
  function Strip(s: string, cs: set<char>): (r: string)
    ensures r == [] || (r[0] !in cs && r[|r| - 1] !in cs)
    ensures s == [] || (s[0] !in cs && s[|s| - 1] !in cs) ==> r == s
  {
    RStrip(LStrip(s, cs), cs)
  }

  /** Stripping leaves nothing exactly when every character is one of those stripped. */
  lemma StripEmpty(s: string, cs: set<char>)
    ensures Strip(s, cs) == [] <==> forall k :: 0 <= k < |s| ==> s[k] in cs
  {
    var l := LStrip(s, cs);
    if Strip(s, cs) == [] {
      assert l == [];
    }
  }

  /** s.split(sep) for a one-character separator: the pieces between separators, at least
      one of them, none holding the separator, and joined back they give s. */
  function Split(s: string, sep: char): (r: seq<string>)
    ensures |r| >= 1
    ensures forall i :: 0 <= i < |r| ==> sep !in r[i]
    ensures Join(r, sep) == s
  {
    if |s| == 0 then [[]]
    else
      var rest := Split(s[1..], sep);
      if s[0] == sep then
        assert [sep] + s[1..] == s;
        [[]] + rest
      else
        var r := [[s[0]] + rest[0]] + rest[1..];
        assert |rest| > 1 ==> Join(rest, sep) == rest[0] + [sep] + Join(rest[1..], sep);
        assert Join(r, sep) == [s[0]] + Join(rest, sep);
        r
  }

  /** sep.join(parts) for a one-character separator. */
  function Join(parts: seq<string>, sep: char): string
  {
    if |parts| == 0 then []
    else if |parts| == 1 then parts[0]
    else parts[0] + [sep] + Join(parts[1..], sep)
  }

  /** Joining one more part at the end. */
  lemma {:induction false} JoinSnoc(parts: seq<string>, last: string, sep: char)
    requires |parts| >= 1
    ensures Join(parts + [last], sep) == Join(parts, sep) + [sep] + last
  {
    if |parts| > 1 {
      assert (parts + [last])[1..] == parts[1..] + [last];
      JoinSnoc(parts[1..], last, sep);
    } else {
      assert (parts + [last])[1..] == [last];
    }
  }

  /** A join of non-empty parts starts with the first part's first character and ends with
      the last part's last character. */
  lemma {:induction false} JoinEnds(parts: seq<string>, sep: char)
    requires |parts| >= 1
    requires forall i :: 0 <= i < |parts| ==> parts[i] != []
    ensures |Join(parts, sep)| >= 1
    ensures Join(parts, sep)[0] == parts[0][0]
    ensures Join(parts, sep)[|Join(parts, sep)| - 1] == parts[|parts| - 1][|parts[|parts| - 1]| - 1]
  {
    if |parts| > 1 {
      JoinEnds(parts[1..], sep);
    }
  }

  /** Stripping only removes characters. */
  lemma StripKeepsCharacters(s: string, cs: set<char>)
    ensures forall c :: c in Strip(s, cs) ==> c in s
  {
    var l := LStrip(s, cs);
    var r := RStrip(l, cs);
    forall c | c in r ensures c in s {
      var k :| 0 <= k < |r| && r[k] == c;
      assert l[k] == c;
      assert s[|s| - |l| + k] == c;
    }
  }

  /** A string that starts with a character that is not stripped keeps that character first. */
  lemma StripStartsWith(s: string, cs: set<char>)
    requires |s| > 0 && s[0] !in cs
    ensures |Strip(s, cs)| > 0 && Strip(s, cs)[0] == s[0]
  {
    var l := LStrip(s, cs);
    assert l == s;
  }

  /** Dropping at most one leading character of cs from a string that then starts with a
      character not in cs. */
  lemma LStripOne(x: string, w: string, cs: set<char>)
    requires |w| > 0 && w[0] !in cs
    requires |x| <= 1 && forall i :: 0 <= i < |x| ==> x[i] in cs
    ensures LStrip(x + w, cs) == w
  {
    if |x| == 1 {
      assert (x + w)[1..] == w;
    } else {
      assert x + w == w;
    }
  }

  /** Dropping at most one trailing character of cs from a string that then ends with a
      character not in cs. */
  lemma RStripOne(w: string, y: string, cs: set<char>)
    requires |w| > 0 && w[|w| - 1] !in cs
    requires |y| <= 1 && forall i :: 0 <= i < |y| ==> y[i] in cs
    ensures RStrip(w + y, cs) == w
  {
    if |y| == 1 {
      assert (w + y)[..|w|] == w;
    } else {
      assert w + y == w;
    }
  }

  /** Stripping at most one character of cs from each side of a string whose own ends are
      not in cs. */
  lemma StripOneEach(u: string, cs: set<char>, x: string, y: string)
    requires |u| > 0 && u[0] !in cs && u[|u| - 1] !in cs
    requires |x| <= 1 && |y| <= 1
    requires forall i :: 0 <= i < |x| ==> x[i] in cs
    requires forall i :: 0 <= i < |y| ==> y[i] in cs
    ensures Strip(x + u + y, cs) == u
  {
    assert (u + y)[0] == u[0];
    LStripOne(x, u + y, cs);
    assert x + u + y == x + (u + y);
    RStripOne(u, y, cs);
  }

  /** The first piece of a split of a string that does not start with the separator starts
      with the string's first character. */
  lemma SplitFirst(s: string, sep: char)
    requires |s| > 0 && s[0] != sep
    ensures |Split(s, sep)[0]| > 0 && Split(s, sep)[0][0] == s[0]
  {
  }

  /** Every character of a piece of a split is a character of the string split. */
  lemma {:induction false} SplitKeepsCharacters(s: string, sep: char)
    ensures forall i, c :: 0 <= i < |Split(s, sep)| && c in Split(s, sep)[i] ==> c in s
  {
    if |s| > 0 {
      SplitKeepsCharacters(s[1..], sep);
      var rest := Split(s[1..], sep);
      forall i, c | 0 <= i < |Split(s, sep)| && c in Split(s, sep)[i]
        ensures c in s
      {
        if s[0] != sep && i == 0 {
          assert c in [s[0]] + rest[0];
          if c != s[0] {
            assert c in rest[0];
          }
        }
        if c != s[0] {
          assert c in s[1..];
        }
      }
    }
  }

  /** Splitting a piece that holds no separator, put in front of the rest, adds that piece
      to the first part of the rest's split. */
  lemma {:induction false} SplitPrepend(a: string, t: string, sep: char)
    requires sep !in a
    ensures Split(a + t, sep) == [a + Split(t, sep)[0]] + Split(t, sep)[1..]
  {
    var rest := Split(t, sep);
    if a == [] {
      assert a + t == t;
      assert a + rest[0] == rest[0];
      assert rest == [rest[0]] + rest[1..];
    } else {
      assert (a + t)[1..] == a[1..] + t;
      SplitPrepend(a[1..], t, sep);
      assert [a[0]] + (a[1..] + Split(t, sep)[0]) == a + Split(t, sep)[0];
    }
  }

  /** Splitting a joined list whose parts hold no separator gives the parts back. */
  lemma {:induction false} SplitJoin(parts: seq<string>, sep: char)
    requires |parts| >= 1
    requires forall i :: 0 <= i < |parts| ==> sep !in parts[i]
    ensures Split(Join(parts, sep), sep) == parts
  {
    if |parts| == 1 {
      SplitPrepend(parts[0], [], sep);
      assert parts[0] + [] == parts[0];
    } else {
      var rest := Join(parts[1..], sep);
      SplitJoin(parts[1..], sep);
      assert Join(parts, sep) == parts[0] + ([sep] + rest);
      SplitPrepend(parts[0], [sep] + rest, sep);
      assert ([sep] + rest)[1..] == rest;
      assert Split([sep] + rest, sep) == [[]] + Split(rest, sep);
      assert parts[0] + [] == parts[0];
      assert parts == [parts[0]] + parts[1..];
    }
  }

  /** Python's [f(x) for x in xs if keep(x)]. */
  function Comprehension(xs: seq<string>, keep: string -> bool, f: string -> string): (r: seq<string>)
    ensures |r| <= |xs|
  {
    if |xs| == 0 then []
    else
      var last := xs[|xs| - 1];
      Comprehension(xs[..|xs| - 1], keep, f) + (if keep(last) then [f(last)] else [])
  }

  /** The positions of xs that a filter keeps: increasing, each kept, and every kept
      position is among them. */
  function KeptIndices(xs: seq<string>, keep: string -> bool): (idx: seq<nat>)
    ensures forall i :: 0 <= i < |idx| ==> idx[i] < |xs| && keep(xs[idx[i]])
    ensures forall i, j :: 0 <= i < j < |idx| ==> idx[i] < idx[j]
    ensures forall k :: 0 <= k < |xs| && keep(xs[k]) ==> k in idx
  {
    if |xs| == 0 then []
    else
      var n := |xs| - 1;
      var init := KeptIndices(xs[..n], keep);
      assert forall i :: 0 <= i < |init| ==> xs[..n][init[i]] == xs[init[i]];
      init + (if keep(xs[n]) then [n] else [])
  }

  /** A comprehension keeps the order of its input: its i-th element is f applied to the
      i-th kept element, and it has one element per kept element. */
  lemma {:induction false} ComprehensionAt(xs: seq<string>, keep: string -> bool, f: string -> string)
    ensures |Comprehension(xs, keep, f)| == |KeptIndices(xs, keep)|
    ensures forall i :: 0 <= i < |KeptIndices(xs, keep)| ==>
      Comprehension(xs, keep, f)[i] == f(xs[KeptIndices(xs, keep)[i]])
  {
    if |xs| > 0 {
      ComprehensionAt(xs[..|xs| - 1], keep, f);
      ComprehensionStep(xs, keep, f);
    }
  }

  /** The i-th element of the comprehension is the image of the i-th kept element. */
  predicate KeptImages(xs: seq<string>, keep: string -> bool, f: string -> string)
  {
    |Comprehension(xs, keep, f)| == |KeptIndices(xs, keep)|
    && forall i :: 0 <= i < |KeptIndices(xs, keep)| ==>
      Comprehension(xs, keep, f)[i] == f(xs[KeptIndices(xs, keep)[i]])
  }

  /** Appending one element keeps KeptImages. */
  lemma ComprehensionStep(xs: seq<string>, keep: string -> bool, f: string -> string)
    requires |xs| > 0 && KeptImages(xs[..|xs| - 1], keep, f)
    ensures KeptImages(xs, keep, f)
  {
    var n := |xs| - 1;
    var idx := KeptIndices(xs[..n], keep);
    var all := KeptIndices(xs, keep);
    var r := Comprehension(xs, keep, f);
    assert all == idx + (if keep(xs[n]) then [n] else []);
    assert r == Comprehension(xs[..n], keep, f) + (if keep(xs[n]) then [f(xs[n])] else []);
    forall i | 0 <= i < |all|
      ensures r[i] == f(xs[all[i]])
    {
      if i < |idx| {
        assert xs[..n][idx[i]] == xs[idx[i]];
      }
    }
  }

  /** A comprehension that keeps every element is the element-wise image of its input. */
  lemma {:induction false} ComprehensionKeepsAll(xs: seq<string>, keep: string -> bool, f: string -> string, ys: seq<string>)
    requires |ys| == |xs|
    requires forall i :: 0 <= i < |xs| ==> keep(xs[i]) && f(xs[i]) == ys[i]
    ensures Comprehension(xs, keep, f) == ys
  {
    if |xs| > 0 {
      var n := |xs| - 1;
      ComprehensionKeepsAll(xs[..n], keep, f, ys[..n]);
      assert ys[..n] + [ys[n]] == ys;
    }
  }

  /** The text Python's text-mode read hands over (universal newlines): every carriage return
      followed by a newline, and every other carriage return, becomes a newline. No carriage
      return is left, the text never grows, and a text without carriage returns is read as
      it is. */
  function TranslateNewlines(s: string): (r: string)
    ensures '\r' !in r
    ensures |r| <= |s|
    ensures '\r' !in s ==> r == s
    decreases |s|
  {
    if |s| == 0 then []
    else if s[0] == '\r' then
      "\n" + TranslateNewlines(if |s| >= 2 && s[1] == '\n' then s[2..] else s[1..])
    else
      assert s == [s[0]] + s[1..];
      [s[0]] + TranslateNewlines(s[1..])
  }

  /** A stretch without carriage returns is read as it is, whatever follows it. */
  lemma {:induction false} TranslatePlain(x: string, y: string)
    requires '\r' !in x
    ensures TranslateNewlines(x + y) == x + TranslateNewlines(y)
    decreases |x|
  {
    if x != [] {
      assert x[0] in x;
      assert x == [x[0]] + x[1..];
      var s := x + y;
      assert s[0] == x[0] && s[1..] == x[1..] + y;
      assert TranslateNewlines(s) == [x[0]] + TranslateNewlines(s[1..]);
      TranslatePlain(x[1..], y);
      assert [x[0]] + (x[1..] + TranslateNewlines(y)) == x + TranslateNewlines(y);
    } else {
      assert x + y == y;
    }
  }

  /** A carriage return followed by a newline, and a carriage return followed by anything
      else, are each read as one newline. */
  lemma TranslateLineEnd(y: string)
    ensures TranslateNewlines("\r\n" + y) == "\n" + TranslateNewlines(y)
    ensures y == [] || y[0] != '\n' ==> TranslateNewlines("\r" + y) == "\n" + TranslateNewlines(y)
  {
    assert ("\r\n" + y)[2..] == y;
    assert ("\r" + y)[1..] == y;
  }
}
