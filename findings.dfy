/** Two ways in which write_array_to_env does not give back, on the next read, the list it
    wrote, each shown on the code as written and then corrected:
    - the block of an empty list, NAME=( followed by a newline and ), no longer matches the
      pattern, which wants a newline before the closing parenthesis of its own;
    - the entries are pasted into the replacement string of re.sub, which expands backslash
      escapes in it. */
module Findings {
  import opened Wrappers
  import opened Builtins
  import opened Regex
  import opened EnvArray

  // ---------------------------------------------------------------- helpers on closings

  /** What follows a position from which no closing occurs holds no closing. */
  lemma TailCloseFree(text: string, from: nat)
    requires from <= |text| && FindClose(text, from).None?
    ensures CloseFree(text[from..])
  {
    var s := text[from..];
    forall k | 0 <= k < |s|
      ensures !ClosesAt(s, k)
    {
      assert !ClosesAt(text, from + k);
      assert s[k] == text[from + k];
      if k + 1 < |s| {
        assert s[k + 1] == text[from + k + 1];
      }
    }
  }

  /** The stretch between a position and the first closing after it holds no closing. */
  lemma StretchCloseFree(text: string, from: nat, c: nat)
    requires from <= |text| && FindClose(text, from) == Some(c)
    ensures CloseFree(text[from..c])
  {
    var s := text[from..c];
    forall k | 0 <= k < |s|
      ensures !ClosesAt(s, k)
    {
      assert !ClosesAt(text, from + k);
      assert s[k] == text[from + k];
      if k + 1 < |s| {
        assert s[k + 1] == text[from + k + 1];
      }
    }
  }

  /** Putting a character other than a newline in front keeps a text free of closings. */
  lemma ConsCloseFree(c: char, s: string)
    requires c != '\n' && CloseFree(s)
    ensures CloseFree([c] + s)
  {
    var t := [c] + s;
    forall k | 0 <= k < |t|
      ensures !ClosesAt(t, k)
    {
      if k > 0 {
        assert !ClosesAt(s, k - 1);
      }
    }
  }

  /** Where the text after x holds no closing, nothing matches in x + s at or after a point
      whose opening would end inside s. */
  lemma NoMatchInto(x: string, s: string, name: string, q: nat)
    requires CloseFree(s) && q + |Opening(name)| >= |x|
    ensures MatchAt(x + s, name, q).None?
  {
    var t := x + s;
    var from := q + |Opening(name)|;
    var r := FindClose(t, from);
    if r.Some? {
      assert t[r.value] == s[r.value - |x|] && t[r.value + 1] == s[r.value + 1 - |x|];
      assert ClosesAt(s, r.value - |x|);
    }
  }

  // ---------------------------------------------------------------- the empty list, as written

  /** The text left by writing the empty list over the first block: NAME=(, a newline and ),
      where the block was. */
  function Emptied(text: string, name: string): string
    requires Search(text, name, 0).Some?
  {
    var m := Search(text, name, 0).value;
    text[..m.start] + Opening(name) + ")" + text[m.bodyEnd + 2..]
  }

  /** Over a text with a single block, writing the empty list gives that text. */
  lemma EmptyWriteText(text: string, name: string)
    requires LiteralName(name)
    requires Search(text, name, 0).Some?
    requires Search(text, name, Search(text, name, 0).value.bodyEnd + 2).None?
    ensures Rewrite(text, name, []) == Ok(Emptied(text, name))
  {
    var m := Search(text, name, 0).value;
    RewriteSingleBlock(text, name, []);
    ArrayBlockLayout(name, []);
    var pre, tail := text[..m.start], text[m.bodyEnd + 2..];
    assert pre + (Opening(name) + ")") + tail == pre + Opening(name) + ")" + tail;
  }

  /** The emptied text agrees with the old one up to the end of the old block's opening. */
  lemma EmptiedPrefix(text: string, name: string)
    requires Search(text, name, 0).Some?
    ensures var b := Search(text, name, 0).value.start + |Opening(name)|;
      var t := Emptied(text, name);
      b <= |t| && b <= |text| && t[..b] == text[..b]
  {
    var m := Search(text, name, 0).value;
    var op := Opening(name);
    assert IsMatch(text, name, m.start, m.bodyEnd);
    assert text[m.start..m.start + |op|] == op;
    var x := text[..m.start] + op;
    assert Emptied(text, name) == x + ([')'] + text[m.bodyEnd + 2..]);
    assert x == text[..m.start + |op|];
  }

  /** When no closing follows the block, the emptied text matches nowhere. */
  lemma EmptiedNoMatch(text: string, name: string)
    requires Search(text, name, 0).Some?
    requires FindClose(text, Search(text, name, 0).value.bodyEnd + 2).None?
    ensures Search(Emptied(text, name), name, 0).None?
  {
    var m := Search(text, name, 0).value;
    var op := Opening(name);
    var tail := text[m.bodyEnd + 2..];
    var x := text[..m.start] + op;
    var t := Emptied(text, name);
    assert IsMatch(text, name, m.start, m.bodyEnd);
    assert t == x + ([')'] + tail);
    TailCloseFree(text, m.bodyEnd + 2);
    ConsCloseFree(')', tail);
    EmptiedPrefix(text, name);
    SameBeforeFirst(text, name, t);
    forall q | m.start <= q
      ensures MatchAt(t, name, q).None?
    {
      NoMatchInto(x, [')'] + tail, name, q);
    }
    NowhereNoMatch(t, name);
  }

  /** Writing the empty list over a text with one block and no closing after it leaves
      NAME=(, a newline and ) in its place, which no longer matches: reading then gives the
      empty list, and every later write leaves the text as it is. */
  lemma EmptyWriteHidesArray(text: string, name: string, urls: seq<string>)
    requires LiteralName(name)
    requires Search(text, name, 0).Some?
    requires FindClose(text, Search(text, name, 0).value.bodyEnd + 2).None?
    ensures Rewrite(text, name, []) == Ok(Emptied(text, name))
    ensures Search(Emptied(text, name), name, 0).None?
    ensures ReadArray(Emptied(text, name), name) == []
    ensures Rewrite(Emptied(text, name), name, urls).Ok? ==>
      Rewrite(Emptied(text, name), name, urls).value == Emptied(text, name)
  {
    NoCloseNoMatch(text, name, Search(text, name, 0).value.bodyEnd + 2);
    EmptyWriteText(text, name);
    EmptiedNoMatch(text, name);
  }

  /** A text cut at a closing at or after a point: what lies between, the closing, and what
      follows it. */
  lemma TailAtClose(text: string, from: nat, c: nat)
    requires from <= c && ClosesAt(text, c)
    ensures text[from..] == text[from..c] + ("\n)" + text[c + 2..])
  {
    assert text[c..c + 2] == "\n)";
    assert text[from..] == text[from..c] + text[c..c + 2] + text[c + 2..];
  }

  /** Regrouping the emptied text around a body that starts with ')'. */
  lemma EmptiedPieces(pre: string, op: string, tail: string, mid: string, rest: string)
    requires tail == mid + ("\n)" + rest)
    ensures pre + op + ")" + tail == pre + (op + ([')'] + mid) + "\n)") + rest
  {
  }

  /** When a closing follows the block, the emptied text has the opening, then a body that
      starts with ')' and runs to that closing, then the closing. */
  lemma EmptiedSplice(text: string, name: string, p: nat, e: nat, c: nat)
    requires Search(text, name, 0) == Some(Span(p, e))
    requires FindClose(text, e + 2) == Some(c)
    ensures c + 2 <= |text|
    ensures Emptied(text, name)
      == text[..p] + (Opening(name) + ([')'] + text[e + 2..c]) + "\n)") + text[c + 2..]
  {
    assert IsMatch(text, name, p, e);
    TailAtClose(text, e + 2, c);
    EmptiedPieces(text[..p], Opening(name), text[e + 2..], text[e + 2..c], text[c + 2..]);
  }

  /** The body the emptied block then has, from its ')' to that closing, holds no closing. */
  lemma ReopenedBodyCloseFree(text: string, e: nat, c: nat)
    requires e + 2 <= |text| && FindClose(text, e + 2) == Some(c)
    ensures CloseFree([')'] + text[e + 2..c])
  {
    StretchCloseFree(text, e + 2, c);
    ConsCloseFree(')', text[e + 2..c]);
  }

  /** When a closing follows the block, the emptied block matches again, now reaching to
      that closing, and reading gives back a non-empty list whose first entry starts with
      ')'. */
  lemma EmptiedReopens(text: string, name: string, p: nat, e: nat, c: nat)
    requires Search(text, name, 0) == Some(Span(p, e))
    requires FindClose(text, e + 2) == Some(c)
    ensures Search(Emptied(text, name), name, 0) == Some(Span(p, p + |Opening(name)| + 1 + (c - (e + 2))))
    ensures ReadArray(Emptied(text, name), name) != []
    ensures ReadArray(Emptied(text, name), name)[0] != []
    ensures ReadArray(Emptied(text, name), name)[0][0] == ')'
  {
    ReopenedSearch(text, name, p, e, c);
    ReopenedRead(text, name, p, e, c);
    FirstEntryParen([')'] + text[e + 2..c]);
  }

  /** The emptied text's first block, when a closing follows the old block. */
  lemma ReopenedSearch(text: string, name: string, p: nat, e: nat, c: nat)
    requires Search(text, name, 0) == Some(Span(p, e))
    requires FindClose(text, e + 2) == Some(c)
    ensures Search(Emptied(text, name), name, 0) == Some(Span(p, p + |Opening(name)| + 1 + (c - (e + 2))))
  {
    var body := [')'] + text[e + 2..c];
    EmptiedSplice(text, name, p, e, c);
    ReopenedBodyCloseFree(text, e, c);
    assert Emptied(text, name) == text[..p] + (Opening(name) + body + "\n)") + text[c + 2..];
    SearchSpliced(text, name, p, body, text[c + 2..], Emptied(text, name));
  }

  /** What the emptied text then reads as. */
  lemma ReopenedRead(text: string, name: string, p: nat, e: nat, c: nat)
    requires Search(text, name, 0) == Some(Span(p, e))
    requires FindClose(text, e + 2) == Some(c)
    ensures ReadArray(Emptied(text, name), name) == ParseBody([')'] + text[e + 2..c])
  {
    var body := [')'] + text[e + 2..c];
    EmptiedSplice(text, name, p, e, c);
    ReopenedBodyCloseFree(text, e, c);
    assert Emptied(text, name) == text[..p] + (Opening(name) + body + "\n)") + text[c + 2..];
    ReadSpliced(text, name, p, body, text[c + 2..], Emptied(text, name));
  }

  /** As written, what EmptyWriteHidesArray leaves out: when a closing follows the block (the
      end of another array, say), writing the empty list leaves a text whose first block now
      reaches to that closing, and reading gives back a non-empty list whose first entry
      starts with ')'. */
  lemma EmptyWriteReopensArray(text: string, name: string, p: nat, e: nat, c: nat)
    requires LiteralName(name)
    requires Search(text, name, 0) == Some(Span(p, e))
    requires Search(text, name, e + 2).None?
    requires FindClose(text, e + 2) == Some(c)
    ensures Rewrite(text, name, []) == Ok(Emptied(text, name))
    ensures Search(Emptied(text, name), name, 0) == Some(Span(p, p + |Opening(name)| + 1 + (c - (e + 2))))
    ensures ReadArray(Emptied(text, name), name) != []
    ensures ReadArray(Emptied(text, name), name)[0] != []
    ensures ReadArray(Emptied(text, name), name)[0][0] == ')'
  {
    EmptyWriteText(text, name);
    EmptiedReopens(text, name, p, e, c);
  }

  /** A body that starts with ')' reads as a list whose first entry starts with ')'. */
  lemma FirstEntryParen(body: string)
    requires |body| > 0 && body[0] == ')'
    ensures ParseBody(body) != [] && ParseBody(body)[0] != [] && ParseBody(body)[0][0] == ')'
  {
    PunctuationIsNotWhitespace();
    StripStartsWith(body, Whitespace);
    var s := Strip(body, Whitespace);
    SplitFirst(s, '\n');
    var lines := BodyLines(body);
    var line := lines[0];
    StripStartsWith(line, Whitespace);
    StripStartsWith(Strip(line, Whitespace), {'"'});
    assert IsEntryLine(line);
    var idx := KeptIndices(lines, IsEntryLine);
    assert 0 in idx;
    ComprehensionAt(lines, IsEntryLine, CleanEntry);
    assert idx[0] == 0;
  }

  // ---------------------------------------------------------------- the empty list, corrected

  /** The block as it should be written: the quoted entries joined by newlines between NAME=(
      and a newline and ), so that the empty list gives NAME=(, two newlines and ), which still
      matches with an empty body. */
  function FixedArrayBlock(name: string, urls: seq<string>): string
  {
    Opening(name) + Join(QuoteAll(urls), '\n') + "\n)"
  }

  /** The corrected block differs from the block as written only for the empty list. */
  lemma FixedBlockAgrees(name: string, urls: seq<string>)
    ensures urls != [] ==> FixedArrayBlock(name, urls) == ArrayBlock(name, urls)
    ensures urls == [] ==> FixedArrayBlock(name, urls) == Opening(name) + "\n)"
  {
    ArrayBlockLayout(name, urls);
    if urls == [] {
      assert QuoteAll(urls) == [];
    }
  }

  /** The corrected write: the corrected block with its backslashes doubled, so that re.sub
      inserts it as it is; it is never refused, and a text without a block is left as it
      was. */
  function FixedRewrite(text: string, name: string, urls: seq<string>): (r: string)
    ensures Search(text, name, 0).None? ==> r == text
  {
    ExpandEscaped(FixedArrayBlock(name, urls));
    Substitute(text, name, EscapeTemplate(FixedArrayBlock(name, urls))).value
  }

  /** The corrected round trip: any list, the empty one included, whose entries hold no
      newline and no double quote at either end (backslashes are allowed) reads back as it was written. */
  lemma FixedRoundTrip(text: string, name: string, urls: seq<string>)
    requires Search(text, name, 0).Some?
    requires forall i :: 0 <= i < |urls| ==> '\n' !in urls[i] && UnquotedEnds(urls[i])
    ensures ReadArray(FixedRewrite(text, name, urls), name) == urls
  {
    var m := Search(text, name, 0).value;
    FixedRewriteFirst(text, name, urls);
    FixedBlockReads(text, name, urls, m.start, SubFrom(text, name, FixedArrayBlock(name, urls), m.bodyEnd + 2),
      FixedRewrite(text, name, urls));
  }

  /** The corrected write puts the corrected block where the first block was and goes on
      after it. */
  lemma FixedRewriteFirst(text: string, name: string, urls: seq<string>)
    requires Search(text, name, 0).Some?
    ensures var m := Search(text, name, 0).value;
      var block := FixedArrayBlock(name, urls);
      m.bodyEnd + 2 <= |text|
      && FixedRewrite(text, name, urls) == text[..m.start] + block + SubFrom(text, name, block, m.bodyEnd + 2)
  {
    ExpandEscaped(FixedArrayBlock(name, urls));
    SubFromFirst(text, name, FixedArrayBlock(name, urls));
  }

  /** A character that is in neither the text, the name, the entries nor the punctuation of
      the block is not in the text the corrected write leaves. */
  lemma FixedRewriteAvoids(text: string, name: string, urls: seq<string>, c: char)
    requires forall i :: 0 <= i < |urls| ==> c !in urls[i]
    requires c !in text && c !in name && c !in "=(\n\")"
    ensures c !in FixedRewrite(text, name, urls)
  {
    var block := FixedArrayBlock(name, urls);
    ExpandEscaped(block);
    assert FixedRewrite(text, name, urls) == SubFrom(text, name, block, 0);
    SubFromCharacters(text, name, block, 0);
    FixedBlockAgrees(name, urls);
    if urls != [] {
      BlockAvoids(name, urls, c);
    }
  }

  /** A text with the corrected block in place of the first block reads as the list. */
  lemma FixedBlockReads(text: string, name: string, urls: seq<string>, p: nat, rest: string, t: string)
    requires Search(text, name, 0).Some? && Search(text, name, 0).value.start == p
    requires forall i :: 0 <= i < |urls| ==> '\n' !in urls[i] && UnquotedEnds(urls[i])
    requires t == text[..p] + FixedArrayBlock(name, urls) + rest
    ensures ReadArray(t, name) == urls
  {
    QuotedBodyCloseFree(urls);
    ReadSpliced(text, name, p, Join(QuoteAll(urls), '\n'), rest, t);
    ParseQuoted(urls);
  }

  /** With the correction, the entry that the code as written splits in two reads back
      whole. */
  lemma BackslashEntryKept(text: string, name: string, a: string, b: string)
    requires Search(text, name, 0).Some?
    requires Plain(a) && Plain(b)
    ensures ReadArray(FixedRewrite(text, name, [a + "\\n" + b]), name) == [a + "\\n" + b]
  {
    var u := a + "\\n" + b;
    PlainFacts(a);
    PlainFacts(b);
    forall c | c in u
      ensures c != '\n' && c != '"'
    {
      assert c in a || c in "\\n" || c in b;
    }
    FixedRoundTrip(text, name, [u]);
  }

  // ---------------------------------------------------------------- backslashes, as written

  /** A piece of an entry with nothing that reading or the pattern treats specially. */
  predicate Plain(s: string)
  {
    |s| > 0
    && forall i :: 0 <= i < |s| ==>
      s[i] !in Whitespace && s[i] != '"' && s[i] != '\\' && s[i] != '#' && s[i] != ')'
  }

  /** What a plain piece does not hold, and how it starts and ends. */
  lemma PlainFacts(s: string)
    requires Plain(s)
    ensures '\n' !in s && '"' !in s && '\\' !in s
    ensures s[0] !in Whitespace && s[|s| - 1] !in Whitespace
    ensures s[0] != '"' && s[|s| - 1] != '"' && s[0] != ')' && s[0] != '#'
  {
    assert '\n' in Whitespace;
    forall c | c in s
      ensures c != '\n' && c != '"' && c != '\\'
    {
      var i :| 0 <= i < |s| && s[i] == c;
    }
  }

  /** The pattern's opening holds no backslash when the name is taken literally. */
  lemma OpeningNoBackslash(name: string)
    requires LiteralName(name)
    ensures '\\' !in Opening(name)
  {
    forall c | c in Opening(name)
      ensures c != '\\'
    {
      var i :| 0 <= i < |Opening(name)| && Opening(name)[i] == c;
      if i < |name| {
        assert name[i] == c;
      }
    }
  }

  /** As written, an entry holding a backslash before a letter that is no escape re.sub knows
      (here d) makes re.sub refuse the block, so the write fails and the file is left as it
      was. */
  lemma EscapeEntryRefused(text: string, name: string)
    requires LiteralName(name)
    ensures Rewrite(text, name, ["a\\d"]).Err?
  {
    var x, y := Opening(name) + "\"a", ['\\', 'd'] + "\"\n)";
    assert ArrayBlock(name, ["a\\d"]) == x + y;
    OpeningNoBackslash(name);
    assert forall i :: 0 <= i < |x| ==> x[i] != '\\' by {
      forall i | 0 <= i < |x|
        ensures x[i] != '\\'
      {
        if i < |Opening(name)| {
          assert x[i] == Opening(name)[i];
        }
      }
    }
    ExpandPlainPrefix(x, y);
    ExpandDigitClassRefused("\"\n)");
  }

  /** As written, re.sub turns the backslash and n inside the entry into a newline: the
      block it inserts has the two halves on lines of their own. */
  lemma ExpandSplitBlock(name: string, a: string, b: string)
    requires LiteralName(name)
    requires Plain(a) && Plain(b)
    ensures ExpandTemplate(ArrayBlock(name, [a + "\\n" + b]))
      == Ok(Opening(name) + Join(["\"" + a, b + "\""], '\n') + "\n)")
  {
    var u := a + "\\n" + b;
    var op := Opening(name);
    ArrayBlockLayout(name, [u]);
    assert QuoteAll([u]) == [Quote(u)];
    var x := op + "\"" + a;
    var y2 := b + "\"\n)";
    var y := "\\n" + y2;
    assert ArrayBlock(name, [u]) == x + y;
    PlainFacts(a);
    PlainFacts(b);
    OpeningNoBackslash(name);
    forall i | 0 <= i < |x|
      ensures x[i] != '\\'
    {
      assert x[i] in op || x[i] in "\"" + a;
    }
    ExpandPlainPrefix(x, y);
    assert '\\' !in y2 by {
      forall c | c in y2
        ensures c != '\\'
      {
        assert c in b || c in "\"\n)";
      }
    }
    NewlineEscape(y2);
    SplitLayout(op, a, b);
  }

  /** A backslash and n at the front of a template without other backslashes become a
      newline. */
  lemma NewlineEscape(y: string)
    requires '\\' !in y
    ensures ExpandTemplate("\\n" + y) == Ok("\n" + y)
  {
    assert ("\\n" + y)[2..] == y;
  }

  /** The expanded block, as the opening followed by the two lines and the closing. */
  lemma SplitLayout(op: string, a: string, b: string)
    ensures op + "\"" + a + ("\n" + (b + "\"\n)"))
      == op + Join(["\"" + a, b + "\""], '\n') + "\n)"
  {
    assert Join(["\"" + a, b + "\""], '\n') == "\"" + a + "\n" + (b + "\"");
  }

  /** The left half, after its opening double quote, is a kept line holding that half. */
  lemma LeftHalfLine(a: string)
    requires Plain(a)
    ensures IsEntryLine("\"" + a) && CleanEntry("\"" + a) == a
  {
    PlainFacts(a);
    PunctuationIsNotWhitespace();
    var l := "\"" + a;
    assert l[|l| - 1] == a[|a| - 1];
    assert Strip(l, Whitespace) == l;
    StripOneEach(a, {'"'}, "\"", "");
    assert "\"" + a + "" == l;
  }

  /** The right half, before its closing double quote, is a kept line holding that half. */
  lemma RightHalfLine(b: string)
    requires Plain(b)
    ensures IsEntryLine(b + "\"") && CleanEntry(b + "\"") == b
  {
    PlainFacts(b);
    PunctuationIsNotWhitespace();
    var l := b + "\"";
    assert l[0] == b[0];
    assert Strip(l, Whitespace) == l;
    StripOneEach(b, {'"'}, "", "\"");
    assert "" + b + "\"" == l;
  }

  /** The two lines of the split entry: not empty, without newlines, not starting with ')',
      kept, and holding the two halves. */
  lemma HalvesLines(a: string, b: string)
    requires Plain(a) && Plain(b)
    ensures var lines := ["\"" + a, b + "\""];
      forall i :: 0 <= i < 2 ==>
        lines[i] != [] && '\n' !in lines[i] && lines[i][0] != ')'
        && IsEntryLine(lines[i]) && CleanEntry(lines[i]) == [a, b][i]
  {
    var lines := ["\"" + a, b + "\""];
    PlainFacts(a);
    PlainFacts(b);
    LeftHalfLine(a);
    RightHalfLine(b);
    forall i | 0 <= i < 2
      ensures lines[i] != [] && '\n' !in lines[i] && lines[i][0] != ')'
      ensures IsEntryLine(lines[i]) && CleanEntry(lines[i]) == [a, b][i]
    {
      if i == 0 {
        assert lines[i] == "\"" + a;
      } else {
        assert lines[i] == b + "\"" && lines[i][0] == b[0];
      }
    }
  }

  /** The two lines of the split entry hold no closing and read as the two halves. */
  lemma HalvesRead(a: string, b: string)
    requires Plain(a) && Plain(b)
    ensures CloseFree(Join(["\"" + a, b + "\""], '\n'))
    ensures ParseBody(Join(["\"" + a, b + "\""], '\n')) == [a, b]
  {
    var lines := ["\"" + a, b + "\""];
    HalvesLines(a, b);
    JoinedCloseFree(lines);
    PlainFacts(a);
    PlainFacts(b);
    PunctuationIsNotWhitespace();
    assert lines[1][|lines[1]| - 1] == '"';
    ParseLines(lines, [a, b]);
  }

  /** As written: an entry holding a backslash followed by n is written with a newline in its
      place, so reading gives back two entries. */
  lemma BackslashEntrySplits(text: string, name: string, a: string, b: string)
    requires LiteralName(name)
    requires Search(text, name, 0).Some?
    requires Plain(a) && Plain(b)
    ensures Rewrite(text, name, [a + "\\n" + b]).Ok?
    ensures ReadArray(Rewrite(text, name, [a + "\\n" + b]).value, name) == [a, b]
  {
    var repl := Opening(name) + Join(["\"" + a, b + "\""], '\n') + "\n)";
    ExpandSplitBlock(name, a, b);
    RewriteExpands(text, name, [a + "\\n" + b], repl);
    SplitSubReads(text, name, a, b, repl);
  }

  /** re.sub with the expanded block of the split entry reads as the two halves. */
  lemma SplitSubReads(text: string, name: string, a: string, b: string, repl: string)
    requires Search(text, name, 0).Some?
    requires Plain(a) && Plain(b)
    requires repl == Opening(name) + Join(["\"" + a, b + "\""], '\n') + "\n)"
    ensures ReadArray(SubFrom(text, name, repl, 0), name) == [a, b]
  {
    var m := Search(text, name, 0).value;
    SubFromFirst(text, name, repl);
    var rest := SubFrom(text, name, repl, m.bodyEnd + 2);
    SplitBlockReads(text, name, a, b, m.start, rest, SubFrom(text, name, repl, 0));
  }

  /** A text with the two halves on lines of their own in place of the first block reads as
      the two halves. */
  lemma SplitBlockReads(text: string, name: string, a: string, b: string, p: nat, rest: string, t: string)
    requires Search(text, name, 0).Some? && Search(text, name, 0).value.start == p
    requires Plain(a) && Plain(b)
    requires t == text[..p] + (Opening(name) + Join(["\"" + a, b + "\""], '\n') + "\n)") + rest
    ensures ReadArray(t, name) == [a, b]
  {
    HalvesRead(a, b);
    ReadSpliced(text, name, p, Join(["\"" + a, b + "\""], '\n'), rest, t);
  }
}
