/** The /videos and /songs pages: the textarea of the posted form becomes a list of entries
    (split at newlines, each piece stripped, blank pieces dropped), and saving writes that list
    to the page's env file. */
module Forms {
  import opened Wrappers
  import opened Builtins
  import opened Regex
  import opened EnvArray
  import opened EnvFiles

  /** The form field that holds the textarea. */
  const UrlsField: string := "urls"

  /** The form field present when the save button was pressed. */
  const SaveField: string := "save"

  /** A piece of the textarea that is kept: something other than whitespace is left once it
      is stripped. */
  predicate NonBlank(piece: string)
  {
    Strip(piece, Whitespace) != []
  }

  /** url.strip(). */
  function StripSpace(piece: string): string
  {
    Strip(piece, Whitespace)
  }

  /** [url.strip() for url in raw.split('\n') if url.strip()]. */
  function NormaliseLines(raw: string): seq<string>
  {
    Comprehension(Split(raw, '\n'), NonBlank, StripSpace)
  }

  /** request.form.get('urls', ''), normalised. */
  function FormUrls(form: map<string, string>): seq<string>
  {
    NormaliseLines(if UrlsField in form then form[UrlsField] else "")
  }

  /** The entries are the stripped non-blank pieces of the textarea, one per such piece and in
      the order of the pieces; every entry is non-empty, has no whitespace at either end and
      holds no newline. */
  lemma NormalisedEntries(raw: string)
    ensures var urls, pieces := NormaliseLines(raw), Split(raw, '\n');
      var kept := KeptIndices(pieces, NonBlank);
      |urls| == |kept|
      && (forall i :: 0 <= i < |urls| ==> urls[i] == Strip(pieces[kept[i]], Whitespace))
      && (forall k :: 0 <= k < |pieces| && NonBlank(pieces[k]) ==> k in kept)
      && (forall i, j :: 0 <= i < j < |kept| ==> kept[i] < kept[j])
    ensures forall i :: 0 <= i < |NormaliseLines(raw)| ==> CleanPiece(NormaliseLines(raw)[i])
  {
    var urls, pieces := NormaliseLines(raw), Split(raw, '\n');
    var kept := KeptIndices(pieces, NonBlank);
    ComprehensionAt(pieces, NonBlank, StripSpace);
    forall i | 0 <= i < |urls|
      ensures CleanPiece(urls[i])
    {
      var piece := pieces[kept[i]];
      StripKeepsCharacters(piece, Whitespace);
      assert urls[i] == Strip(piece, Whitespace);
    }
  }

  /** What every entry of a normalised textarea is like. */
  predicate CleanPiece(u: string)
  {
    u != [] && u[0] !in Whitespace && u[|u| - 1] !in Whitespace && '\n' !in u
  }

  /** Every character of an entry comes from the textarea. */
  lemma NormalisedCharacters(raw: string)
    ensures forall i, c :: 0 <= i < |NormaliseLines(raw)| && c in NormaliseLines(raw)[i] ==> c in raw
  {
    var urls, pieces := NormaliseLines(raw), Split(raw, '\n');
    var kept := KeptIndices(pieces, NonBlank);
    ComprehensionAt(pieces, NonBlank, StripSpace);
    SplitKeepsCharacters(raw, '\n');
    forall i, c | 0 <= i < |urls| && c in urls[i]
      ensures c in raw
    {
      StripKeepsCharacters(pieces[kept[i]], Whitespace);
    }
  }

  /** Normalising is idempotent: the entries, one per line, normalise to themselves. */
  lemma NormaliseIdempotent(raw: string)
    ensures NormaliseLines(Join(NormaliseLines(raw), '\n')) == NormaliseLines(raw)
  {
    var urls := NormaliseLines(raw);
    NormalisedEntries(raw);
    if urls == [] {
      assert Join(urls, '\n') == [];
      assert Split([], '\n') == [[]];
      assert !NonBlank([]);
      assert Comprehension([[]], NonBlank, StripSpace) == Comprehension([], NonBlank, StripSpace);
    } else {
      SplitJoin(urls, '\n');
      forall i | 0 <= i < |urls|
        ensures NonBlank(urls[i]) && StripSpace(urls[i]) == urls[i]
      {
        assert CleanPiece(urls[i]);
      }
      ComprehensionKeepsAll(urls, NonBlank, StripSpace, urls);
    }
  }

  /** The POST branch of /videos and /songs: without the save field nothing happens; with it
      the normalised textarea is written to the page's file, and the result says whether the
      write succeeded (the page then flashes success or an error). */
  method Save(file: EnvFile, name: string, form: map<string, string>) returns (saved: Option<bool>)
    requires LiteralName(name)
    modifies file
    ensures file.writable == old(file.writable)
    ensures SaveField !in form ==> saved.None? && file.content == old(file.content)
    ensures SaveField in form ==> saved.Some?
    ensures SaveField in form ==> (saved.value <==>
      (old(file.content).Some? && old(file.writable)
       && Rewrite(TranslateNewlines(old(file.content).value), name, FormUrls(form)).Ok?))
    ensures SaveField in form && saved.value ==>
      file.content == Some(Rewrite(TranslateNewlines(old(file.content).value), name, FormUrls(form)).value)
    ensures SaveField in form && !saved.value ==> file.content == old(file.content)
  {
    if SaveField !in form {
      return None;
    }
    var urls := FormUrls(form);
    var ok := file.WriteArray(name, urls);
    return Some(ok);
  }

  /** Pressing save on the page of an existing, writable file that has a block, with a
      textarea that leaves at least one entry and whose entries hold no carriage return or
      backslash and have no double quote at either end, writes those entries; showing the
      page afterwards reads the file in text mode and lists exactly those entries. */
  method SaveThenShow(file: EnvFile, name: string, form: map<string, string>)
      returns (saved: Option<bool>, shown: seq<string>)
    requires LiteralName(name)
    requires file.content.Some? && file.writable
    requires Search(TranslateNewlines(file.content.value), name, 0).Some?
    requires SaveField in form && FormUrls(form) != []
    requires forall i :: 0 <= i < |FormUrls(form)| ==>
      '\r' !in FormUrls(form)[i] && '\\' !in FormUrls(form)[i] && UnquotedEnds(FormUrls(form)[i])
    modifies file
    ensures saved == Some(true) && shown == FormUrls(form)
  {
    var urls := FormUrls(form);
    FormEntries(form);
    var text := TranslateNewlines(file.content.value);
    SavedTextReads(text, name, urls);
    saved := Save(file, name, form);
    shown := file.ReadArray(name);
  }

  /** No entry of a normalised textarea holds a newline. */
  lemma FormEntries(form: map<string, string>)
    ensures forall i :: 0 <= i < |FormUrls(form)| ==> '\n' !in FormUrls(form)[i]
  {
    var raw := if UrlsField in form then form[UrlsField] else "";
    assert FormUrls(form) == NormaliseLines(raw);
    NormalisedLineFree(raw);
  }

  /** The same, for the textarea's text. */
  lemma NormalisedLineFree(raw: string)
    ensures forall i :: 0 <= i < |NormaliseLines(raw)| ==> '\n' !in NormaliseLines(raw)[i]
  {
    NormalisedEntries(raw);
    forall i | 0 <= i < |NormaliseLines(raw)|
      ensures '\n' !in NormaliseLines(raw)[i]
    {
      assert CleanPiece(NormaliseLines(raw)[i]);
    }
  }

  /** Writing such entries over a text as read that has a block gives a text without
      carriage returns, which reads back as the entries. */
  lemma SavedTextReads(text: string, name: string, urls: seq<string>)
    requires LiteralName(name)
    requires Search(text, name, 0).Some? && '\r' !in text
    requires |urls| >= 1
    requires forall i :: 0 <= i < |urls| ==>
      '\n' !in urls[i] && '\r' !in urls[i] && UnquotedEnds(urls[i]) && '\\' !in urls[i]
    ensures Rewrite(text, name, urls).Ok?
    ensures '\r' !in Rewrite(text, name, urls).value
    ensures ReadArray(Rewrite(text, name, urls).value, name) == urls
  {
    RoundTrip(text, name, urls);
    SearchedNameInText(text, name);
    RewriteAvoids(text, name, urls, '\r');
  }
}
