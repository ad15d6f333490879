/** What Python's re module does with the one pattern app.py uses,
    NAME=\(\n(.*?)\n\) under re.DOTALL, for an array name free of pattern metacharacters:
    re.search finds the leftmost match, and re.sub replaces every match, left to right,
    after expanding the backslash escapes of its replacement string. */
module Regex {
  import opened Wrappers

  /** Characters that would change the meaning of the pattern if they appeared in the array
      name, which app.py interpolates into the pattern without escaping. */
  const Metacharacters: set<char> :=
    {'.', '^', '$', '*', '+', '?', '{', '}', '[', ']', '\\', '|', '(', ')'}

  /** An array name that the pattern matches literally. */
  predicate LiteralName(name: string)
  {
    forall i :: 0 <= i < |name| ==> name[i] !in Metacharacters
  }

  /** The literal part of the pattern before the group: NAME=(, then a newline. */
  function Opening(name: string): string
  {
    name + "=(\n"
  }

  predicate OpensAt(text: string, name: string, p: nat)
  {
    p + |Opening(name)| <= |text| && text[p..p + |Opening(name)|] == Opening(name)
  }

  /** The literal part after the group: a newline, then ')'. */
  predicate ClosesAt(text: string, e: nat)
  {
    e + 2 <= |text| && text[e] == '\n' && text[e + 1] == ')'
  }

  /** The pattern matches at p with its group ending at e: the opening at p, the closing at e,
      and, the group being non-greedy, no closing between the end of the opening and e
      (under DOTALL the group may hold any character, newlines included). */
  predicate IsMatch(text: string, name: string, p: nat, e: nat)
  {
    OpensAt(text, name, p) && p + |Opening(name)| <= e && ClosesAt(text, e)
    && forall k :: p + |Opening(name)| <= k < e ==> !ClosesAt(text, k)
  }

  /** The first closing at or after from. */
  function FindClose(text: string, from: nat): (r: Option<nat>)
    decreases |text| - from
    ensures r.Some? ==> from <= r.value && ClosesAt(text, r.value)
    ensures r.Some? ==> forall k :: from <= k < r.value ==> !ClosesAt(text, k)
    ensures r.None? ==> forall k :: from <= k ==> !ClosesAt(text, k)
  {
    if from + 2 > |text| then None
    else if ClosesAt(text, from) then Some(from)
    else FindClose(text, from + 1)
  }

  /** Where the group ends if the pattern matches at p. */
  function MatchAt(text: string, name: string, p: nat): (r: Option<nat>)
    ensures r.Some? ==> IsMatch(text, name, p, r.value)
  {
    if OpensAt(text, name, p) then FindClose(text, p + |Opening(name)|) else None
  }

  /** MatchAt misses no match: when it finds none, the pattern does not match at p. */
  lemma MatchAtComplete(text: string, name: string, p: nat, e: nat)
    requires MatchAt(text, name, p).None?
    ensures !IsMatch(text, name, p, e)
  {
  }

  /** A match: it covers text[start..bodyEnd + 2], and its group is
      text[start + |Opening(name)|..bodyEnd]. */
  datatype Span = Span(start: nat, bodyEnd: nat)

  /** re.search started at from: the leftmost match at or after from, or none. */
  function Search(text: string, name: string, from: nat): (r: Option<Span>)
    decreases |text| + 1 - from
    ensures r.Some? ==> from <= r.value.start && MatchAt(text, name, r.value.start) == Some(r.value.bodyEnd)
    ensures r.Some? ==> forall q :: from <= q < r.value.start ==> MatchAt(text, name, q).None?
    ensures r.None? ==> forall q :: from <= q ==> MatchAt(text, name, q).None?
  {
    if from > |text| then None
    else
      match MatchAt(text, name, from)
      case Some(e) => Some(Span(from, e))
      case None => Search(text, name, from + 1)
  }

  /** match.group(1) of re.search from the start of the text: the body of the first block. */
  function Group(text: string, name: string): Option<string>
  {
    match Search(text, name, 0)
    case None => None
    case Some(m) => Some(text[m.start + |Opening(name)|..m.bodyEnd])
  }

  /** Search returns the match at p when nothing matches between from and p. */
  lemma SearchFinds(text: string, name: string, from: nat, p: nat, e: nat)
    requires from <= p && MatchAt(text, name, p) == Some(e)
    requires forall q :: from <= q < p ==> MatchAt(text, name, q).None?
    ensures Search(text, name, from) == Some(Span(p, e))
  {
  }

  /** FindClose returns the first closing at or after from. */
  lemma {:induction false} FindCloseAt(text: string, from: nat, e: nat)
    requires from <= e && ClosesAt(text, e)
    requires forall k :: from <= k < e ==> !ClosesAt(text, k)
    ensures FindClose(text, from) == Some(e)
    decreases e - from
  {
    if from < e {
      assert !ClosesAt(text, from);
      FindCloseAt(text, from + 1, e);
    }
  }

  /** Before the first match no opening occurs at all: the closing that ends the first match
      would complete a match there too. */
  lemma NoOpeningBefore(text: string, name: string, q: nat)
    requires Search(text, name, 0).Some? && q < Search(text, name, 0).value.start
    ensures !OpensAt(text, name, q)
  {
    var m := Search(text, name, 0).value;
    assert MatchAt(text, name, q).None?;
    assert IsMatch(text, name, m.start, m.bodyEnd);
    assert ClosesAt(text, m.bodyEnd);
  }

  /** Without a closing at or after from, nothing matches from there on. */
  lemma NoCloseNoMatch(text: string, name: string, from: nat)
    requires FindClose(text, from).None?
    ensures Search(text, name, from).None?
  {
  }

  /** Where no position matches, re.search finds nothing. */
  lemma NowhereNoMatch(text: string, name: string)
    requires forall q :: MatchAt(text, name, q).None?
    ensures Search(text, name, 0).None?
  {
  }

  /** The part of re.sub's result that comes from text[from..]: at each position where the
      pattern matches, the replacement, and scanning resumes after the match; at every other
      position, the character there. */
  function SubFrom(text: string, name: string, repl: string, from: nat): string
    decreases |text| - from
  {
    if from >= |text| then []
    else
      match MatchAt(text, name, from)
      case Some(e) => repl + SubFrom(text, name, repl, e + 2)
      case None => [text[from]] + SubFrom(text, name, repl, from + 1)
  }

  /** Where the pattern matches nowhere in text[from..p], re.sub copies those characters. */
  lemma {:induction false} SubFromCopies(text: string, name: string, repl: string, from: nat, p: nat)
    requires from <= p <= |text|
    requires forall q :: from <= q < p ==> MatchAt(text, name, q).None?
    ensures SubFrom(text, name, repl, from) == text[from..p] + SubFrom(text, name, repl, p)
    decreases p - from
  {
    if from < p {
      SubFromSkip(text, name, repl, from);
      SubFromCopies(text, name, repl, from + 1, p);
      ConsSlice(text, from, p, SubFrom(text, name, repl, p));
    }
  }

  lemma ConsSlice(text: string, from: nat, p: nat, tail: string)
    requires from < p <= |text|
    ensures [text[from]] + (text[from + 1..p] + tail) == text[from..p] + tail
  {
    assert text[from..p] == [text[from]] + text[from + 1..p];
  }

  /** One step of re.sub at a position where the pattern does not match. */
  lemma SubFromSkip(text: string, name: string, repl: string, from: nat)
    requires from < |text| && MatchAt(text, name, from).None?
    ensures SubFrom(text, name, repl, from) == [text[from]] + SubFrom(text, name, repl, from + 1)
  {
  }

  /** One step of re.sub at a position where the pattern matches. */
  lemma SubFromReplace(text: string, name: string, repl: string, from: nat, e: nat)
    requires from < |text| && MatchAt(text, name, from) == Some(e)
    ensures SubFrom(text, name, repl, from) == repl + SubFrom(text, name, repl, e + 2)
  {
  }

  /** re.sub keeps what precedes the first match, puts the replacement in its place, and goes
      on after it. */
  lemma SubFromFirst(text: string, name: string, repl: string)
    requires Search(text, name, 0).Some?
    ensures var m := Search(text, name, 0).value;
      m.bodyEnd + 2 <= |text|
      && SubFrom(text, name, repl, 0) == text[..m.start] + repl + SubFrom(text, name, repl, m.bodyEnd + 2)
  {
    var m := Search(text, name, 0).value;
    SubFromAt(text, name, repl, m.start, m.bodyEnd);
  }

  /** The same, for a match at p whose group ends at e with no match before p. */
  lemma SubFromAt(text: string, name: string, repl: string, p: nat, e: nat)
    requires MatchAt(text, name, p) == Some(e)
    requires forall q :: 0 <= q < p ==> MatchAt(text, name, q).None?
    ensures e + 2 <= |text|
    ensures SubFrom(text, name, repl, 0) == text[..p] + repl + SubFrom(text, name, repl, e + 2)
  {
    assert IsMatch(text, name, p, e);
    SubFromCopies(text, name, repl, 0, p);
    SubFromReplace(text, name, repl, p, e);
    assert text[0..p] == text[..p];
  }

  /** Every character re.sub produces comes from the text or from the replacement. */
  lemma {:induction false} SubFromCharacters(text: string, name: string, repl: string, from: nat)
    ensures forall c :: c in SubFrom(text, name, repl, from) ==> c in text || c in repl
    decreases |text| - from
  {
    if from < |text| {
      match MatchAt(text, name, from)
      case Some(e) =>
        assert IsMatch(text, name, from, e);
        SubFromReplace(text, name, repl, from, e);
        SubFromCharacters(text, name, repl, e + 2);
        DrawnFromBoth(repl, SubFrom(text, name, repl, e + 2), text, repl);
      case None =>
        SubFromSkip(text, name, repl, from);
        SubFromCharacters(text, name, repl, from + 1);
        DrawnFromBoth([text[from]], SubFrom(text, name, repl, from + 1), text, repl);
    }
  }

  /** Characters drawn from a or b, appended, are still drawn from a or b. */
  lemma DrawnFromBoth(x: string, y: string, a: string, b: string)
    requires forall c :: c in x ==> c in a || c in b
    requires forall c :: c in y ==> c in a || c in b
    ensures forall c :: c in x + y ==> c in a || c in b
  {
  }

  /** The name of an array the text has a block of is spelt out in the text. */
  lemma SearchedNameInText(text: string, name: string)
    requires Search(text, name, 0).Some?
    ensures forall c :: c in name ==> c in text
  {
    var p := Search(text, name, 0).value.start;
    assert OpensAt(text, name, p);
    forall c | c in name
      ensures c in text
    {
      var j :| 0 <= j < |name| && name[j] == c;
      assert Opening(name)[j] == c;
      assert text[p + j] == c;
    }
  }

  /** Where the pattern matches nowhere in text[from..], re.sub leaves it as it is. */
  lemma SubFromNoMatch(text: string, name: string, repl: string, from: nat)
    requires from <= |text| && Search(text, name, from).None?
    ensures SubFrom(text, name, repl, from) == text[from..]
  {
    SubFromCopies(text, name, repl, from, |text|);
  }

  /** The control characters named by the escapes \a \b \f \n \r \t \v. */
  const ControlEscapes: map<char, char> :=
    map['a' := '\U{07}', 'b' := '\U{08}', 'f' := '\U{0C}', 'n' := '\n', 'r' := '\r', 't' := '\t', 'v' := '\U{0B}']

  predicate IsAsciiLetterOrDigit(c: char)
  {
    'a' <= c <= 'z' || 'A' <= c <= 'Z' || '0' <= c <= '9'
  }

  function Prefixed(head: string, r: Result<string>): Result<string>
  {
    match r
    case Ok(s) => Ok(head + s)
    case Err(msg) => Err(msg)
  }

  /** re.sub's expansion of its replacement string: a doubled backslash stands for one
      backslash, \a \b \f \n \r \t \v for control characters, a backslash before any other
      ASCII letter or a digit is refused, a backslash before anything else is kept with it,
      and a backslash at the very end is refused. Without backslashes the string is used as
      it is. */
  function ExpandTemplate(t: string): (r: Result<string>)
    decreases |t|
    ensures '\\' !in t ==> r == Ok(t)
    ensures r.Ok? ==> |r.value| <= |t|
  {
    if |t| == 0 then Ok([])
    else if t[0] != '\\' then
      assert [t[0]] + t[1..] == t;
      Prefixed([t[0]], ExpandTemplate(t[1..]))
    else if |t| == 1 then Err("bad escape (end of pattern)")
    else
      var c := t[1];
      if c == '\\' then Prefixed(['\\'], ExpandTemplate(t[2..]))
      else if c in ControlEscapes then Prefixed([ControlEscapes[c]], ExpandTemplate(t[2..]))
      else if IsAsciiLetterOrDigit(c) then Err("bad escape or group reference")
      else Prefixed(['\\', c], ExpandTemplate(t[2..]))
  }

  /** Expansion passes a character other than a backslash through unchanged. */
  lemma ExpandPlainChar(c: char, y: string)
    requires c != '\\'
    ensures ExpandTemplate([c] + y) == Prefixed([c], ExpandTemplate(y))
  {
    assert ([c] + y)[1..] == y;
  }

  /** A backslash before an ASCII letter or digit that names no escape makes expansion fail,
      whatever follows. */
  lemma ExpandUnknownEscape(c: char, y: string)
    requires IsAsciiLetterOrDigit(c) && c !in ControlEscapes
    ensures ExpandTemplate(['\\', c] + y).Err?
  {
    var t := ['\\', c] + y;
    assert t[0] == '\\' && t[1] == c && |t| >= 2;
  }

  /** In particular \d is refused. */
  lemma ExpandDigitClassRefused(y: string)
    ensures ExpandTemplate(['\\', 'd'] + y).Err?
  {
    ExpandUnknownEscape('d', y);
  }

  lemma PrefixedTwice(a: string, b: string, r: Result<string>)
    ensures Prefixed(a, Prefixed(b, r)) == Prefixed(a + b, r)
  {
    if r.Ok? {
      assert a + (b + r.value) == (a + b) + r.value;
    }
  }

  /** Expansion passes a backslash-free prefix through unchanged. */
  lemma {:induction false} ExpandPlainPrefix(x: string, y: string)
    requires forall i :: 0 <= i < |x| ==> x[i] != '\\'
    ensures ExpandTemplate(x + y) == Prefixed(x, ExpandTemplate(y))
  {
    if |x| == 0 {
      assert x + y == y;
      if ExpandTemplate(y).Ok? {
        assert x + ExpandTemplate(y).value == ExpandTemplate(y).value;
      }
    } else {
      var c, rest := x[0], x[1..];
      assert x + y == [c] + (rest + y);
      ExpandPlainChar(c, rest + y);
      ExpandPlainPrefix(rest, y);
      PrefixedTwice([c], rest, ExpandTemplate(y));
      assert [c] + rest == x;
    }
  }

  /** Doubling every backslash: the replacement string that makes re.sub insert s as it is. */
  function EscapeTemplate(s: string): (t: string)
    ensures |t| >= |s|
  {
    if |s| == 0 then []
    else (if s[0] == '\\' then ['\\', '\\'] else [s[0]]) + EscapeTemplate(s[1..])
  }

  /** Expanding an escaped string gives the string back. */
  lemma {:induction false} ExpandEscaped(s: string)
    ensures ExpandTemplate(EscapeTemplate(s)) == Ok(s)
  {
    if |s| > 0 {
      var y := EscapeTemplate(s[1..]);
      ExpandEscaped(s[1..]);
      if s[0] == '\\' {
        assert EscapeTemplate(s) == ['\\', '\\'] + y;
        ExpandDoubledBackslash(y);
      } else {
        assert EscapeTemplate(s) == [s[0]] + y;
        ExpandPlainChar(s[0], y);
      }
      assert [s[0]] + s[1..] == s;
    }
  }

  /** Expansion turns a doubled backslash into one. */
  lemma ExpandDoubledBackslash(y: string)
    ensures ExpandTemplate(['\\', '\\'] + y) == Prefixed(['\\'], ExpandTemplate(y))
  {
    assert (['\\', '\\'] + y)[2..] == y;
  }

  /** re.sub(pattern, template, text, flags=re.DOTALL): refused exactly when the template is,
      and when nothing matches the text comes back unchanged. */
  function Substitute(text: string, name: string, template: string): (r: Result<string>)
    ensures r.Ok? <==> ExpandTemplate(template).Ok?
    ensures r.Ok? && Search(text, name, 0).None? ==> r.value == text
  {
    match ExpandTemplate(template)
    case Err(msg) => Err(msg)
    case Ok(repl) =>
      SubFromNoMatchIfNone(text, name, repl);
      Ok(SubFrom(text, name, repl, 0))
  }

  lemma SubFromNoMatchIfNone(text: string, name: string, repl: string)
    ensures Search(text, name, 0).None? ==> SubFrom(text, name, repl, 0) == text
  {
    if Search(text, name, 0).None? {
      SubFromNoMatch(text, name, repl, 0);
    }
  }
}
