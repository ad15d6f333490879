/** The bash-array blocks of an env file, as app.py reads and writes them:
    read_array_from_env turns the first NAME=( … ) block of the file into a list of entries,
    and write_array_to_env puts a block built from a list in place of every such block. */
module EnvArray {
  import opened Wrappers
  import opened Builtins
  import opened Regex

  /** The array the /videos page edits in /scripts/.videos-env. */
  const VideoSourcesName: string := "declare -a VIDEO_SOURCES"

  /** The array the /songs page edits in /scripts/.songs-env. */
  const PlaylistsName: string := "declare -a PLAYLISTS"

  /** Both names are taken literally by the pattern they are interpolated into. */
  lemma NamesAreLiteral()
    ensures LiteralName(VideoSourcesName) && LiteralName(PlaylistsName)
  {
  }

  // ---------------------------------------------------------------- reading

  /** A body line that read_array_from_env keeps: once stripped of whitespace it is neither
      empty nor a # comment. */
  predicate IsEntryLine(line: string)
  {
    var s := Strip(line, Whitespace);
    s != [] && s[0] != '#'
  }

  /** line.strip().strip('"'): the entry a kept line holds, with no double quote at either
      end. */
  function CleanEntry(line: string): (u: string)
    ensures UnquotedEnds(u)
  {
    var s := Strip(line, Whitespace);
    StripQuotes(s);
    Strip(s, {'"'})
  }

  /** Stripping double quotes leaves none at either end. */
  lemma StripQuotes(s: string)
    ensures UnquotedEnds(Strip(s, {'"'}))
  {
    var u := Strip(s, {'"'});
    assert u == [] || (u[0] !in {'"'} && u[|u| - 1] !in {'"'});
  }

  /** Neither end of the string is a double quote. */
  predicate UnquotedEnds(u: string)
  {
    u == [] || (u[0] != '"' && u[|u| - 1] != '"')
  }

  /** The body of a block, stripped of surrounding whitespace and split at newlines. */
  function BodyLines(body: string): seq<string>
  {
    Split(Strip(body, Whitespace), '\n')
  }

  /** The list read_array_from_env makes of the body of a block. */
  function ParseBody(body: string): seq<string>
  {
    Comprehension(BodyLines(body), IsEntryLine, CleanEntry)
  }

  /** Every entry comes from a kept line of the body, one entry per kept line and in the
      order of the lines; no entry holds a newline or has a double quote at either end. */
  lemma {:induction false} ParseBodyEntries(body: string)
    ensures |ParseBody(body)| == |KeptIndices(BodyLines(body), IsEntryLine)|
    ensures var lines := BodyLines(body);
      var idx := KeptIndices(lines, IsEntryLine);
      forall i :: 0 <= i < |idx| ==> IsEntryLine(lines[idx[i]]) && ParseBody(body)[i] == CleanEntry(lines[idx[i]])
    ensures forall i :: 0 <= i < |ParseBody(body)| ==> '\n' !in ParseBody(body)[i]
    ensures forall i :: 0 <= i < |ParseBody(body)| ==> UnquotedEnds(ParseBody(body)[i])
  {
    var lines := BodyLines(body);
    var idx := KeptIndices(lines, IsEntryLine);
    ComprehensionAt(lines, IsEntryLine, CleanEntry);
    var urls := ParseBody(body);
    assert |urls| == |idx|;
    forall i | 0 <= i < |idx|
      ensures IsEntryLine(lines[idx[i]]) && urls[i] == CleanEntry(lines[idx[i]])
      ensures '\n' !in urls[i]
      ensures UnquotedEnds(urls[i])
    {
      var line := lines[idx[i]];
      assert urls[i] == CleanEntry(line);
      CleanEntryNoNewline(line);
    }
  }

  /** Cleaning a line without newlines leaves none. */
  lemma CleanEntryNoNewline(line: string)
    requires '\n' !in line
    ensures '\n' !in CleanEntry(line)
  {
    StripKeepsCharacters(line, Whitespace);
    StripKeepsCharacters(Strip(line, Whitespace), {'"'});
  }

  /** The list read from a text: the entries of the body of its first block, or nothing. */
  function ReadArray(text: string, name: string): seq<string>
  {
    match Group(text, name)
    case None => []
    case Some(body) => ParseBody(body)
  }

  /** read_array_from_env: the entries of the first block of the file, and the empty list
      when the file is missing or holds no block. Reading never fails. */
  function ReadArrayFromEnv(file: Option<string>, name: string): (urls: seq<string>)
    requires LiteralName(name)
    ensures file.None? || Search(file.value, name, 0).None? ==> urls == []
  {
    match file
    case None => []
    case Some(text) => ReadArray(text, name)
  }

  // ---------------------------------------------------------------- writing

  /** One line the for loop of write_array_to_env appends: the entry in double quotes, then a
      newline. */
  function QuoteLine(u: string): string
  {
    "\"" + u + "\"\n"
  }

  /** The lines the loop appends for a list, in list order. */
  function QuotedLines(urls: seq<string>): string
  {
    if |urls| == 0 then [] else QuotedLines(urls[..|urls| - 1]) + QuoteLine(urls[|urls| - 1])
  }

  /** The block write_array_to_env puts in place of each match. */
  function ArrayBlock(name: string, urls: seq<string>): string
  {
    Opening(name) + QuotedLines(urls) + ")"
  }

  /** The loop of write_array_to_env that builds the new block with +=. */
  method BuildArrayBlock(name: string, urls: seq<string>) returns (block: string)
    ensures block == ArrayBlock(name, urls)
  {
    block := name + "=(\n";
    for i := 0 to |urls|
      invariant block == Opening(name) + QuotedLines(urls[..i])
    {
      assert urls[..i + 1][..i] == urls[..i];
      block := block + "\"" + urls[i] + "\"\n";
    }
    assert urls[..|urls|] == urls;
    block := block + ")";
  }

  /** An entry in double quotes, without the newline. */
  function Quote(u: string): string
  {
    "\"" + u + "\""
  }

  /** Every entry in double quotes. */
  function QuoteAll(urls: seq<string>): seq<string>
  {
    seq(|urls|, i requires 0 <= i < |urls| => Quote(urls[i]))
  }

  /** The appended lines are the quoted entries joined by newlines, with a final newline. */
  lemma {:induction false} QuotedLinesJoined(urls: seq<string>)
    requires |urls| >= 1
    ensures QuotedLines(urls) == Join(QuoteAll(urls), '\n') + "\n"
  {
    var n := |urls| - 1;
    if n == 0 {
      assert QuotedLines(urls) == [] + QuoteLine(urls[0]);
      assert QuoteAll(urls) == [Quote(urls[0])];
    } else {
      QuotedLinesJoined(urls[..n]);
      assert QuoteAll(urls) == QuoteAll(urls[..n]) + [Quote(urls[n])];
      JoinSnoc(QuoteAll(urls[..n]), Quote(urls[n]), '\n');
    }
  }

  /** The block of an empty list is NAME=(, a newline and ); the block of any other list
      holds the quoted entries, one per line, between NAME=( and a newline and ). */
  lemma ArrayBlockLayout(name: string, urls: seq<string>)
    ensures urls == [] ==> ArrayBlock(name, urls) == Opening(name) + ")"
    ensures urls != [] ==> ArrayBlock(name, urls) == Opening(name) + Join(QuoteAll(urls), '\n') + "\n)"
  {
    if urls != [] {
      QuotedLinesJoined(urls);
      var j := Join(QuoteAll(urls), '\n');
      assert Opening(name) + (j + "\n") + ")" == Opening(name) + j + "\n)";
    }
  }

  /** A name the pattern takes literally and entries without backslashes give a block without
      backslashes. */
  lemma NoBackslashBlock(name: string, urls: seq<string>)
    requires LiteralName(name)
    requires forall i :: 0 <= i < |urls| ==> '\\' !in urls[i]
    ensures '\\' !in ArrayBlock(name, urls)
  {
    assert forall j :: 0 <= j < |name| ==> name[j] != '\\';
    BlockAvoids(name, urls, '\\');
  }

  /** A character that is in neither the name, the entries nor the punctuation of the block
      is not in the block. */
  lemma BlockAvoids(name: string, urls: seq<string>, c: char)
    requires c !in name && c !in "=(\n\")"
    requires forall i :: 0 <= i < |urls| ==> c !in urls[i]
    ensures c !in ArrayBlock(name, urls)
  {
    QuotedLinesAvoid(urls, c);
  }

  /** The appended lines hold no character that is in neither the entries nor the
      punctuation of the lines. */
  lemma {:induction false} QuotedLinesAvoid(urls: seq<string>, c: char)
    requires c != '"' && c != '\n'
    requires forall i :: 0 <= i < |urls| ==> c !in urls[i]
    ensures c !in QuotedLines(urls)
  {
    if |urls| > 0 {
      QuotedLinesAvoid(urls[..|urls| - 1], c);
    }
  }

  /** write_array_to_env's new text: the block substituted by re.sub for every match, which
      fails when re.sub refuses the block as a replacement string; a block built from entries
      without backslashes is always accepted, and a text without a block comes back as it
      was. */
  function Rewrite(text: string, name: string, urls: seq<string>): (r: Result<string>)
    requires LiteralName(name)
    ensures (forall i :: 0 <= i < |urls| ==> '\\' !in urls[i]) ==> r.Ok?
    ensures r.Ok? && Search(text, name, 0).None? ==> r.value == text
  {
    BlockAccepted(name, urls);
    Substitute(text, name, ArrayBlock(name, urls))
  }

  /** re.sub accepts the block as a replacement string when no entry holds a backslash. */
  lemma BlockAccepted(name: string, urls: seq<string>)
    requires LiteralName(name)
    ensures (forall i :: 0 <= i < |urls| ==> '\\' !in urls[i]) ==> ExpandTemplate(ArrayBlock(name, urls)).Ok?
  {
    if forall i :: 0 <= i < |urls| ==> '\\' !in urls[i] {
      NoBackslashBlock(name, urls);
    }
  }

  /** Writing entries without backslashes puts the block where the first match was, keeps
      the text before it, and goes on with the rest of the text after it. */
  lemma RewriteFirstBlock(text: string, name: string, urls: seq<string>)
    requires LiteralName(name)
    requires forall i :: 0 <= i < |urls| ==> '\\' !in urls[i]
    requires Search(text, name, 0).Some?
    ensures var m := Search(text, name, 0).value;
      var block := ArrayBlock(name, urls);
      m.bodyEnd + 2 <= |text|
      && Rewrite(text, name, urls) == Ok(text[..m.start] + block + SubFrom(text, name, block, m.bodyEnd + 2))
  {
    NoBackslashBlock(name, urls);
    SubFromFirst(text, name, ArrayBlock(name, urls));
  }

  /** Whatever the entries, once the block expands, the write is re.sub with the expanded
      block throughout the text. */
  lemma RewriteExpands(text: string, name: string, urls: seq<string>, repl: string)
    requires LiteralName(name)
    requires ExpandTemplate(ArrayBlock(name, urls)) == Ok(repl)
    ensures Rewrite(text, name, urls) == Ok(SubFrom(text, name, repl, 0))
  {
  }

  /** A character that is in neither the text, the name, the entries nor the punctuation of
      the block is not in the rewritten text. */
  lemma RewriteAvoids(text: string, name: string, urls: seq<string>, c: char)
    requires LiteralName(name)
    requires forall i :: 0 <= i < |urls| ==> '\\' !in urls[i] && c !in urls[i]
    requires c !in text && c !in name && c !in "=(\n\")"
    ensures Rewrite(text, name, urls).Ok? && c !in Rewrite(text, name, urls).value
  {
    var block := ArrayBlock(name, urls);
    NoBackslashBlock(name, urls);
    RewriteExpands(text, name, urls, block);
    BlockAvoids(name, urls, c);
    SubFromCharacters(text, name, block, 0);
  }

  /** When the text holds a single block, everything around it is kept as it is. */
  lemma RewriteSingleBlock(text: string, name: string, urls: seq<string>)
    requires LiteralName(name)
    requires forall i :: 0 <= i < |urls| ==> '\\' !in urls[i]
    requires Search(text, name, 0).Some?
    requires Search(text, name, Search(text, name, 0).value.bodyEnd + 2).None?
    ensures var m := Search(text, name, 0).value;
      m.bodyEnd + 2 <= |text|
      && Rewrite(text, name, urls) == Ok(text[..m.start] + ArrayBlock(name, urls) + text[m.bodyEnd + 2..])
  {
    var m := Search(text, name, 0).value;
    RewriteFirstBlock(text, name, urls);
    SubFromNoMatch(text, name, ArrayBlock(name, urls), m.bodyEnd + 2);
  }

  // ---------------------------------------------------------------- reading back

  /** No closing newline and parenthesis anywhere in s. */
  predicate CloseFree(s: string)
  {
    forall k :: 0 <= k < |s| ==> !ClosesAt(s, k)
  }

  /** Lines that are not empty, hold no newline and do not start with ')' hold no closing
      once joined by newlines: every newline of the join is followed by the first character
      of a line. */
  lemma {:induction false} JoinedCloseFree(lines: seq<string>)
    requires forall i :: 0 <= i < |lines| ==> lines[i] != [] && '\n' !in lines[i] && lines[i][0] != ')'
    ensures CloseFree(Join(lines, '\n'))
  {
    if |lines| == 1 {
      var a := lines[0];
      forall k | 0 <= k < |a| ensures !ClosesAt(a, k) {
        assert a[k] in a;
      }
    } else if |lines| > 1 {
      var a := lines[0];
      var rest := Join(lines[1..], '\n');
      JoinedCloseFree(lines[1..]);
      JoinEnds(lines[1..], '\n');
      var j := Join(lines, '\n');
      assert j == a + ("\n" + rest);
      forall k | 0 <= k < |j| ensures !ClosesAt(j, k) {
        if k < |a| {
          assert j[k] == a[k] && a[k] in a;
        } else if k == |a| {
          assert j[k + 1] == rest[0];
        } else {
          assert !ClosesAt(rest, k - |a| - 1);
        }
      }
    }
  }

  /** A text that agrees with another up to the end of the opening of that text's first
      block matches nowhere before that block. */
  lemma SameBeforeFirst(text: string, name: string, t: string)
    requires Search(text, name, 0).Some?
    requires var b := Search(text, name, 0).value.start + |Opening(name)|;
      b <= |t| && b <= |text| && t[..b] == text[..b]
    ensures forall q :: 0 <= q < Search(text, name, 0).value.start ==> MatchAt(t, name, q).None?
  {
    var b := Search(text, name, 0).value.start + |Opening(name)|;
    forall q | 0 <= q < Search(text, name, 0).value.start
      ensures MatchAt(t, name, q).None?
    {
      NoOpeningBefore(text, name, q);
      OpeningWindow(text, t, name, q, b);
    }
  }

  /** Two texts that agree up to b agree on whether an opening that ends by b is there. */
  lemma OpeningWindow(text: string, t: string, name: string, q: nat, b: nat)
    requires q + |Opening(name)| <= b <= |t| && b <= |text| && t[..b] == text[..b]
    ensures OpensAt(t, name, q) == OpensAt(text, name, q)
  {
    var n := |Opening(name)|;
    assert t[q..q + n] == t[..b][q..q + n];
    assert text[q..q + n] == text[..b][q..q + n];
  }

  /** A block with the given body opens at p in t and closes right after the body. */
  predicate BlockAt(t: string, name: string, p: nat, body: string)
  {
    var b := p + |Opening(name)|;
    b + |body| + 2 <= |t| && t[p..b] == Opening(name) && t[b..b + |body|] == body
    && ClosesAt(t, b + |body|)
  }

  /** A block put after a prefix is a block at the prefix's length. */
  lemma BlockIn(pre: string, name: string, body: string, rest: string, t: string)
    requires t == pre + (Opening(name) + body + "\n)") + rest
    ensures BlockAt(t, name, |pre|, body) && t[..|pre|] == pre
  {
    var b := |pre| + |Opening(name)|;
    assert t[|pre|..b] == Opening(name);
    assert t[b..b + |body|] == body;
    assert t[b + |body|] == '\n' && t[b + |body| + 1] == ')';
  }

  /** In a block whose body holds no closing, the first closing after the opening is the
      one right after the body. */
  lemma CloseAfterBody(t: string, name: string, p: nat, body: string)
    requires BlockAt(t, name, p, body) && CloseFree(body)
    ensures FindClose(t, p + |Opening(name)|) == Some(p + |Opening(name)| + |body|)
  {
    var b := p + |Opening(name)|;
    var c := b + |body|;
    forall k | b <= k < c
      ensures !ClosesAt(t, k)
    {
      if k + 1 < c {
        assert t[k] == body[k - b] && t[k + 1] == body[k + 1 - b];
        assert !ClosesAt(body, k - b);
      } else {
        assert t[k + 1] == '\n';
      }
    }
    FindCloseAt(t, b, c);
  }

  /** A text that agrees with another before the other's first block and has an opening
      there agrees with it up to the end of that opening. */
  lemma SameThroughOpening(text: string, name: string, p: nat, body: string, t: string)
    requires Search(text, name, 0).Some? && Search(text, name, 0).value.start == p
    requires BlockAt(t, name, p, body) && p <= |text| && t[..p] == text[..p]
    ensures var b := p + |Opening(name)|; b <= |text| && t[..b] == text[..b]
  {
    assert IsMatch(text, name, p, Search(text, name, 0).value.bodyEnd);
    assert OpensAt(text, name, p);
    PrefixExtend(t, text, p, p + |Opening(name)|);
  }

  /** Two strings that agree up to p and between p and b agree up to b. */
  lemma PrefixExtend(s: string, t: string, p: nat, b: nat)
    requires p <= b <= |s| && b <= |t| && s[..p] == t[..p] && s[p..b] == t[p..b]
    ensures s[..b] == t[..b]
  {
    assert s[..b] == s[..p] + s[p..b];
    assert t[..b] == t[..p] + t[p..b];
  }

  /** A block whose body holds no closing, with no match before it, is the first block. */
  lemma SearchBlock(t: string, name: string, p: nat, body: string)
    requires BlockAt(t, name, p, body) && CloseFree(body)
    requires forall q :: 0 <= q < p ==> MatchAt(t, name, q).None?
    ensures Search(t, name, 0) == Some(Span(p, p + |Opening(name)| + |body|))
    ensures Group(t, name) == Some(body)
  {
    CloseAfterBody(t, name, p, body);
    SearchFinds(t, name, 0, p, p + |Opening(name)| + |body|);
  }

  /** A text t that keeps what came before the first block of another text, then has a
      block whose body holds no closing, then anything at all: its first block starts where
      the old one started and ends at the closing of the new block. */
  lemma SearchSpliced(text: string, name: string, p: nat, body: string, rest: string, t: string)
    requires Search(text, name, 0).Some? && Search(text, name, 0).value.start == p
    requires CloseFree(body)
    requires t == text[..p] + (Opening(name) + body + "\n)") + rest
    ensures Search(t, name, 0) == Some(Span(p, p + |Opening(name)| + |body|))
    ensures Group(t, name) == Some(body)
  {
    assert p <= |text|;
    BlockIn(text[..p], name, body, rest, t);
    SameThroughOpening(text, name, p, body, t);
    SameBeforeFirst(text, name, t);
    SearchBlock(t, name, p, body);
  }

  /** Such a text reads as the entries of that body. */
  lemma ReadSpliced(text: string, name: string, p: nat, body: string, rest: string, t: string)
    requires Search(text, name, 0).Some? && Search(text, name, 0).value.start == p
    requires CloseFree(body)
    requires t == text[..p] + (Opening(name) + body + "\n)") + rest
    ensures ReadArray(t, name) == ParseBody(body)
  {
    SearchSpliced(text, name, p, body, rest, t);
  }

  /** Lines joined by newlines, each a kept line holding the corresponding entry, with
      nothing to strip at either end of the join, read back as those entries. */
  lemma ParseLines(lines: seq<string>, urls: seq<string>)
    requires |lines| == |urls| >= 1
    requires forall i :: 0 <= i < |lines| ==>
      lines[i] != [] && '\n' !in lines[i] && IsEntryLine(lines[i]) && CleanEntry(lines[i]) == urls[i]
    requires lines[0][0] !in Whitespace
    requires lines[|lines| - 1][|lines[|lines| - 1]| - 1] !in Whitespace
    ensures ParseBody(Join(lines, '\n')) == urls
  {
    JoinEnds(lines, '\n');
    SplitJoin(lines, '\n');
    ComprehensionKeepsAll(lines, IsEntryLine, CleanEntry, urls);
  }

  /** A quoted entry with no double quote at either end of its own is a kept line holding
      that entry. */
  lemma QuotedEntry(u: string)
    requires UnquotedEnds(u)
    ensures IsEntryLine(Quote(u)) && CleanEntry(Quote(u)) == u
  {
    QuotedKept(u);
    QuotedClean(u);
  }

  /** A quoted entry has nothing to strip as whitespace and is kept. */
  lemma QuotedKept(u: string)
    ensures Strip(Quote(u), Whitespace) == Quote(u) && IsEntryLine(Quote(u))
  {
    var q := Quote(u);
    assert q[0] == '"' && q[|q| - 1] == '"';
    PunctuationIsNotWhitespace();
  }

  /** Stripping the double quotes of a quoted entry with no double quote at either end of its
      own gives the entry; double quotes inside it stay. */
  lemma QuotedClean(u: string)
    requires UnquotedEnds(u)
    ensures Strip(Quote(u), {'"'}) == u
  {
    var q := Quote(u);
    if u == [] {
      assert q[1..] == "\"";
      assert LStrip(q, {'"'}) == [];
    } else {
      assert u[0] in u && u[|u| - 1] in u;
      StripOneEach(u, {'"'}, "\"", "\"");
    }
  }

  /** An empty body reads as the empty list. */
  lemma ParseEmpty()
    ensures ParseBody([]) == []
  {
    assert Strip([], Whitespace) == [];
    assert Split([], '\n') == [[]];
    assert !IsEntryLine([]);
    assert Comprehension([[]], IsEntryLine, CleanEntry) == Comprehension([], IsEntryLine, CleanEntry);
  }

  /** Each quoted entry is a kept line, not empty, without newlines and not starting with ')',
      that holds the entry. */
  lemma QuotedLinesKept(urls: seq<string>)
    requires forall i :: 0 <= i < |urls| ==> '\n' !in urls[i] && UnquotedEnds(urls[i])
    ensures forall i :: 0 <= i < |urls| ==>
      QuoteAll(urls)[i] != [] && '\n' !in QuoteAll(urls)[i] && QuoteAll(urls)[i][0] != ')'
      && IsEntryLine(QuoteAll(urls)[i]) && CleanEntry(QuoteAll(urls)[i]) == urls[i]
  {
    forall i | 0 <= i < |urls|
      ensures QuoteAll(urls)[i] != [] && '\n' !in QuoteAll(urls)[i] && QuoteAll(urls)[i][0] != ')'
      ensures IsEntryLine(QuoteAll(urls)[i]) && CleanEntry(QuoteAll(urls)[i]) == urls[i]
    {
      assert QuoteAll(urls)[i] == Quote(urls[i]);
      QuotedLine(urls[i]);
    }
  }

  /** One quoted entry is a non-empty line, not a closing, that reads back as the entry. */
  lemma QuotedLine(u: string)
    requires '\n' !in u && UnquotedEnds(u)
    ensures Quote(u) != [] && '\n' !in Quote(u) && Quote(u)[0] != ')'
    ensures IsEntryLine(Quote(u)) && CleanEntry(Quote(u)) == u
  {
    var q := Quote(u);
    assert |q| == |u| + 2 && q[0] == '"';
    forall k | 0 <= k < |q|
      ensures q[k] != '\n'
    {
      if 0 < k < |q| - 1 {
        assert q[k] == u[k - 1];
      }
    }
    QuotedEntry(u);
  }

  /** The quoted entries of any list, one per line, read back as that list when no entry
      holds a newline or has a double quote at either end. */
  lemma ParseQuoted(urls: seq<string>)
    requires forall i :: 0 <= i < |urls| ==> '\n' !in urls[i] && UnquotedEnds(urls[i])
    ensures ParseBody(Join(QuoteAll(urls), '\n')) == urls
  {
    if urls == [] {
      assert QuoteAll(urls) == [];
      assert Join(QuoteAll(urls), '\n') == [];
      ParseEmpty();
    } else {
      var lines := QuoteAll(urls);
      QuotedLinesKept(urls);
      var last := lines[|lines| - 1];
      assert lines[0][0] == '"' && last[|last| - 1] == '"';
      PunctuationIsNotWhitespace();
      ParseLines(lines, urls);
    }
  }

  /** The quoted entries of a list whose entries hold no newline or end quote, joined by
      newlines, hold no closing. */
  lemma QuotedBodyCloseFree(urls: seq<string>)
    requires forall i :: 0 <= i < |urls| ==> '\n' !in urls[i] && UnquotedEnds(urls[i])
    ensures CloseFree(Join(QuoteAll(urls), '\n'))
  {
    if urls == [] {
      assert QuoteAll(urls) == [];
    } else {
      QuotedLinesKept(urls);
      JoinedCloseFree(QuoteAll(urls));
    }
  }

  /** Writing a non-empty list whose entries hold no newline or backslash and have no double
      quote at either end over a text that has a block, then reading, gives the list back. */
  lemma RoundTrip(text: string, name: string, urls: seq<string>)
    requires LiteralName(name)
    requires Search(text, name, 0).Some?
    requires |urls| >= 1
    requires forall i :: 0 <= i < |urls| ==> '\n' !in urls[i] && UnquotedEnds(urls[i]) && '\\' !in urls[i]
    ensures Rewrite(text, name, urls).Ok?
    ensures ReadArray(Rewrite(text, name, urls).value, name) == urls
  {
    var block := ArrayBlock(name, urls);
    NoBackslashBlock(name, urls);
    RewriteExpands(text, name, urls, block);
    QuotedSubReads(text, name, urls);
  }

  /** re.sub with the block of the entries in place of the first block reads as the entries. */
  lemma QuotedSubReads(text: string, name: string, urls: seq<string>)
    requires Search(text, name, 0).Some?
    requires |urls| >= 1
    requires forall i :: 0 <= i < |urls| ==> '\n' !in urls[i] && UnquotedEnds(urls[i])
    ensures ReadArray(SubFrom(text, name, ArrayBlock(name, urls), 0), name) == urls
  {
    var m := Search(text, name, 0).value;
    var block := ArrayBlock(name, urls);
    SubFromFirst(text, name, block);
    ArrayBlockLayout(name, urls);
    var body := Join(QuoteAll(urls), '\n');
    var rest := SubFrom(text, name, block, m.bodyEnd + 2);
    assert block == Opening(name) + body + "\n)";
    QuotedBodyCloseFree(urls);
    ReadSpliced(text, name, m.start, body, rest, SubFrom(text, name, block, 0));
    ParseQuoted(urls);
  }
}
