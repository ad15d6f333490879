/** The env files the web pages edit, as write_array_to_env changes them in place: the file is
    read in text mode, the new block is built, re.sub puts it in place of every block of the
    array, and the new text is written back. Any failure on the way leaves the file as it was
    and makes the write report false. */
module EnvFiles {
  import opened Wrappers
  import opened Builtins
  import opened Regex
  import opened EnvArray
  import opened Findings

  /** One env file: its characters on disk, or None when it does not exist, and whether it
      may be opened for writing. */
  class EnvFile {
    var content: Option<string>
    var writable: bool

    constructor (content: Option<string>, writable: bool)
      ensures this.content == content && this.writable == writable
    {
      this.content := content;
      this.writable := writable;
    }

    /** file.read() in text mode: the file's text with its line endings turned into newlines,
        or None when the file does not exist. */
    function ReadText(): (t: Option<string>)
      reads this
      ensures t.None? <==> content.None?
      ensures t.Some? ==> '\r' !in t.value && t.value == TranslateNewlines(content.value)
      ensures t.Some? && '\r' !in content.value ==> t.value == content.value
    {
      match content
      case None => None
      case Some(disk) => Some(TranslateNewlines(disk))
    }

    /** read_array_from_env on this file. */
    function ReadArray(name: string): (urls: seq<string>)
      requires LiteralName(name)
      reads this
      ensures content.None? ==> urls == []
    {
      ReadArrayFromEnv(ReadText(), name)
    }

    /** write_array_to_env on this file. It succeeds exactly when the file exists, re.sub
        accepts the block as a replacement string and the file may be written; it then holds
        the text as read, rewritten, and otherwise it is left as it was. */
    method WriteArray(name: string, urls: seq<string>) returns (ok: bool)
      requires LiteralName(name)
      modifies this
      ensures ok <==>
        (old(content).Some? && old(writable) && Rewrite(TranslateNewlines(old(content).value), name, urls).Ok?)
      ensures ok ==> content == Some(Rewrite(TranslateNewlines(old(content).value), name, urls).value)
      ensures !ok ==> content == old(content)
      ensures writable == old(writable)
    {
      if content.None? {
        return false;
      }
      var text := TranslateNewlines(content.value);
      var block := BuildArrayBlock(name, urls);
      var r := Substitute(text, name, block);
      if r.Err? || !writable {
        return false;
      }
      content := Some(r.value);
      return true;
    }

    /** write_array_to_env as it should be: the corrected block, inserted as it is. It
        succeeds exactly when the file exists and may be written. */
    method WriteArrayFixed(name: string, urls: seq<string>) returns (ok: bool)
      modifies this
      ensures ok <==> old(content).Some? && old(writable)
      ensures ok ==> content == Some(FixedRewrite(TranslateNewlines(old(content).value), name, urls))
      ensures !ok ==> content == old(content)
      ensures writable == old(writable)
    {
      if content.None? || !writable {
        return false;
      }
      content := Some(FixedRewrite(TranslateNewlines(content.value), name, urls));
      return true;
    }
  }

  /** A write of a non-empty list whose entries hold no line break or backslash and have no
      double quote at either end, to an existing, writable file that has a block, succeeds,
      and the next read gives the list back. */
  method WriteThenRead(file: EnvFile, name: string, urls: seq<string>) returns (ok: bool, back: seq<string>)
    requires LiteralName(name)
    requires file.content.Some? && file.writable
    requires Search(TranslateNewlines(file.content.value), name, 0).Some?
    requires |urls| >= 1
    requires forall i :: 0 <= i < |urls| ==>
      '\n' !in urls[i] && '\r' !in urls[i] && UnquotedEnds(urls[i]) && '\\' !in urls[i]
    modifies file
    ensures ok && back == urls
  {
    var text := TranslateNewlines(file.content.value);
    RoundTrip(text, name, urls);
    SearchedNameInText(text, name);
    RewriteAvoids(text, name, urls, '\r');
    ok := file.WriteArray(name, urls);
    back := file.ReadArray(name);
  }

  /** With the corrected write, any list whose entries hold no line break and have no double
      quote at either end, the empty list and entries with backslashes included, is read back
      as it was written. */
  method FixedWriteThenRead(file: EnvFile, name: string, urls: seq<string>) returns (ok: bool, back: seq<string>)
    requires LiteralName(name)
    requires file.content.Some? && file.writable
    requires Search(TranslateNewlines(file.content.value), name, 0).Some?
    requires forall i :: 0 <= i < |urls| ==> '\n' !in urls[i] && '\r' !in urls[i] && UnquotedEnds(urls[i])
    modifies file
    ensures ok && back == urls
  {
    var text := TranslateNewlines(file.content.value);
    FixedRoundTrip(text, name, urls);
    SearchedNameInText(text, name);
    FixedRewriteAvoids(text, name, urls, '\r');
    ok := file.WriteArrayFixed(name, urls);
    back := file.ReadArray(name);
  }

  /** A write to a file with no block of that array succeeds when the file exists and may be
      written, and leaves the text as it was read: the same characters when the file has no
      carriage returns, and otherwise its line endings turned into newlines. */
  method WriteWithoutBlock(file: EnvFile, name: string, urls: seq<string>) returns (ok: bool)
    requires LiteralName(name)
    requires file.content.Some? && file.writable
    requires Search(TranslateNewlines(file.content.value), name, 0).None?
    requires forall i :: 0 <= i < |urls| ==> '\\' !in urls[i]
    modifies file
    ensures ok && file.content == Some(TranslateNewlines(old(file.content).value))
    ensures '\r' !in old(file.content).value ==> file.content == old(file.content)
  {
    ok := file.WriteArray(name, urls);
  }
}
