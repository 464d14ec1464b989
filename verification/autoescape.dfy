/** `select_autoescape` from src/jinja2/utils.py: turning autoescaping on or
    off from the file name of a template. Extensions are normalised once to
    a lower-case pattern with exactly one leading dot; a name is lower-cased
    and checked first against the enabled patterns, then the disabled ones,
    and a template built from a string (no name) gets its own default. */
module Autoescape {
  import opened Errors

  /** `str.lower` on one character; only ASCII letters are mapped. */
  function LowerChar(ch: char): char {
    if 'A' <= ch <= 'Z' then (ch as int - 'A' as int + 'a' as int) as char else ch
  }

  predicate IsUpper(ch: char) {
    'A' <= ch <= 'Z'
  }

  /** `str.lower`: every character lowered, the length kept. */
  function Lower(s: string): (r: string)
    ensures |r| == |s|
    ensures forall i :: 0 <= i < |s| ==> r[i] == LowerChar(s[i])
    ensures forall i :: 0 <= i < |r| ==> !IsUpper(r[i])
  {
    seq(|s|, i requires 0 <= i < |s| => LowerChar(s[i]))
  }

  /** A string without upper-case letters is its own lower-case form. */
  lemma LowerNoUpper(s: string)
    requires forall i :: 0 <= i < |s| ==> !IsUpper(s[i])
    ensures Lower(s) == s
  {
  }

  /** Lowering twice is lowering once. */
  lemma LowerIdempotent(s: string)
    ensures Lower(Lower(s)) == Lower(s)
  {
  }

  /** `str.lstrip('.')`: every leading dot removed. */
  function LStripDots(s: string): (r: string)
    ensures |r| <= |s| && r == s[|s| - |r|..]
    ensures forall i :: 0 <= i < |s| - |r| ==> s[i] == '.'
    ensures r == [] || r[0] != '.'
  {
    if s != [] && s[0] == '.' then LStripDots(s[1..]) else s
  }

  /** The pattern an extension is normalised to: `"." + ext.lstrip('.').lower()`. */
  function Pattern(ext: string): (p: string)
    ensures |p| >= 1 && p[0] == '.'
    ensures |p| == 1 || p[1] != '.'
    ensures forall i :: 0 <= i < |p| ==> !IsUpper(p[i])
  {
    "." + Lower(LStripDots(ext))
  }

  /** Extensions that differ only in leading dots or letter case give the
      same pattern. */
  lemma PatternIgnoresDotsAndCase()
    ensures Pattern("HTML") == Pattern(".html") == Pattern("..Html") == ".html"
  {
    StripExamples();
    LowerExamples();
  }

  lemma StripExamples()
    ensures LStripDots("HTML") == "HTML"
    ensures LStripDots(".html") == "html"
    ensures LStripDots("..Html") == "Html"
  {
    assert ".html"[1..] == "html";
    assert ".Html"[1..] == "Html";
    assert LStripDots(".Html") == LStripDots("Html") == "Html";
    assert "..Html"[1..] == ".Html";
    assert LStripDots("..Html") == LStripDots(".Html");
  }

  lemma LowerExamples()
    ensures Lower("html") == "html"
    ensures Lower("HTML") == "html"
    ensures Lower("Html") == "html"
  {
    LowerNoUpper("html");
    var up := Lower("HTML");
    assert up[0] == 'h' && up[1] == 't' && up[2] == 'm' && up[3] == 'l';
    var mixed := Lower("Html");
    assert mixed[0] == 'h' && mixed[1] == 't' && mixed[2] == 'm' && mixed[3] == 'l';
  }

  /** `str.endswith(suffix)`. */
  predicate EndsWith(s: string, suffix: string) {
    |suffix| <= |s| && s[|s| - |suffix|..] == suffix
  }

  /** `str.endswith(patterns)` for a tuple: tried in order, true as soon as
      one pattern ends the string, false for an empty tuple. */
  function EndsWithAny(s: string, patterns: seq<string>): (b: bool)
    ensures b <==> exists i :: 0 <= i < |patterns| && EndsWith(s, patterns[i])
  {
    if patterns == [] then false
    else if EndsWith(s, patterns[0]) then true
    else
      var b := EndsWithAny(s, patterns[1..]);
      assert forall i :: 1 <= i < |patterns| ==> patterns[i] == patterns[1..][i - 1];
      b
  }

  /** The settings the returned `autoescape` closure captures. */
  datatype Selector = Selector(
    enabledPatterns: seq<string>,
    disabledPatterns: seq<string>,
    defaultForString: bool,
    default: bool)

  /** `select_autoescape(...)`: the extensions normalised to patterns, in the
      order given. */
  function SelectAutoescape(enabledExtensions: seq<string>, disabledExtensions: seq<string>,
                            defaultForString: bool, default: bool): (s: Selector)
    ensures |s.enabledPatterns| == |enabledExtensions|
    ensures |s.disabledPatterns| == |disabledExtensions|
    ensures forall i :: 0 <= i < |enabledExtensions| ==> s.enabledPatterns[i] == Pattern(enabledExtensions[i])
    ensures forall i :: 0 <= i < |disabledExtensions| ==> s.disabledPatterns[i] == Pattern(disabledExtensions[i])
    ensures s.defaultForString == defaultForString && s.default == default
  {
    Selector(
      seq(|enabledExtensions|, i requires 0 <= i < |enabledExtensions| => Pattern(enabledExtensions[i])),
      seq(|disabledExtensions|, i requires 0 <= i < |disabledExtensions| => Pattern(disabledExtensions[i])),
      defaultForString, default)
  }

  /** The default arguments: enabled for html, htm and xml, nothing
      disabled, on for string templates, off otherwise. */
  function DefaultSelector(): (s: Selector)
    ensures s.enabledPatterns == [".html", ".htm", ".xml"]
    ensures s.disabledPatterns == [] && s.defaultForString && !s.default
  {
    DefaultPatterns();
    SelectAutoescape(["html", "htm", "xml"], [], true, false)
  }

  lemma DefaultPatterns()
    ensures SelectAutoescape(["html", "htm", "xml"], [], true, false).enabledPatterns == [".html", ".htm", ".xml"]
  {
    PlainPattern("html");
    PlainPattern("htm");
    PlainPattern("xml");
    var p := SelectAutoescape(["html", "htm", "xml"], [], true, false).enabledPatterns;
    assert p[0] == ".html" && p[1] == ".htm" && p[2] == ".xml";
  }

  /** An extension without dots or upper-case letters gets a dot prepended. */
  lemma PlainPattern(ext: string)
    requires ext != [] && ext[0] != '.'
    requires forall i :: 0 <= i < |ext| ==> !IsUpper(ext[i])
    ensures Pattern(ext) == "." + ext
  {
    LowerNoUpper(ext);
  }

  /** Does the lower-cased name end with one of the patterns? */
  predicate Matches(name: string, patterns: seq<string>) {
    exists i :: 0 <= i < |patterns| && EndsWith(Lower(name), patterns[i])
  }

  /** The `autoescape(template_name)` closure. */
  function Decide(s: Selector, templateName: Option<string>): (on: bool)
    ensures templateName.None? ==> on == s.defaultForString
    ensures templateName.Some? && Matches(templateName.value, s.enabledPatterns) ==> on
    ensures templateName.Some? && !Matches(templateName.value, s.enabledPatterns) ==>
      (on <==> !Matches(templateName.value, s.disabledPatterns) && s.default)
  {
    match templateName
    case None => s.defaultForString
    case Some(name) =>
      var lowered := Lower(name);
      if EndsWithAny(lowered, s.enabledPatterns) then true
      else if EndsWithAny(lowered, s.disabledPatterns) then false
      else s.default
  }

  /** The decision is case-insensitive: names equal up to letter case get the
      same answer. */
  lemma DecideIgnoresCase(s: Selector, a: string, b: string)
    requires Lower(a) == Lower(b)
    ensures Decide(s, Some(a)) == Decide(s, Some(b))
  {
  }

  /** Extension lists that agree position by position up to leading dots and
      letter case build the same selector, which therefore decides every
      template name the same way, whatever the two defaults are. */
  lemma ExtensionSpellingIrrelevant(en1: seq<string>, en2: seq<string>, dis1: seq<string>, dis2: seq<string>,
                                    defaultForString: bool, default: bool)
    requires |en1| == |en2|
    requires forall i :: 0 <= i < |en1| ==> Lower(LStripDots(en1[i])) == Lower(LStripDots(en2[i]))
    requires |dis1| == |dis2|
    requires forall i :: 0 <= i < |dis1| ==> Lower(LStripDots(dis1[i])) == Lower(LStripDots(dis2[i]))
    ensures SelectAutoescape(en1, dis1, defaultForString, default)
         == SelectAutoescape(en2, dis2, defaultForString, default)
    ensures forall name :: Decide(SelectAutoescape(en1, dis1, defaultForString, default), name)
                        == Decide(SelectAutoescape(en2, dis2, defaultForString, default), name)
  {
    var s1 := SelectAutoescape(en1, dis1, defaultForString, default);
    var s2 := SelectAutoescape(en2, dis2, defaultForString, default);
    assert s1.enabledPatterns == s2.enabledPatterns by {
      forall i | 0 <= i < |en1|
        ensures s1.enabledPatterns[i] == s2.enabledPatterns[i]
      {
        assert Pattern(en1[i]) == Pattern(en2[i]);
      }
    }
    assert s1.disabledPatterns == s2.disabledPatterns by {
      forall i | 0 <= i < |dis1|
        ensures s1.disabledPatterns[i] == s2.disabledPatterns[i]
      {
        assert Pattern(dis1[i]) == Pattern(dis2[i]);
      }
    }
  }

  /** Enabling "HTML", ".html" or "..Html" selects the same templates. */
  lemma SpellingExample()
    ensures SelectAutoescape(["HTML"], [], true, false) == SelectAutoescape(["..Html"], [], true, false)
    ensures SelectAutoescape([".html"], [], true, false) == SelectAutoescape(["..Html"], [], true, false)
  {
    StripExamples();
    LowerExamples();
    ExtensionSpellingIrrelevant(["HTML"], ["..Html"], [], [], true, false);
    ExtensionSpellingIrrelevant([".html"], ["..Html"], [], [], true, false);
  }

  /** With the default arguments: an upper-case `.HTML` file is escaped, a
      `.txt` file is not, a file named just `html` (no dot) is not, and a
      template built from a string is. */
  lemma DefaultSelectorExamples()
    ensures Decide(DefaultSelector(), Some("index.HTML"))
    ensures !Decide(DefaultSelector(), Some("notes.txt"))
    ensures !Decide(DefaultSelector(), Some("html"))
    ensures Decide(DefaultSelector(), None)
  {
    var s := DefaultSelector();
    assert Lower("index.HTML") == "index.html" by {
      var l := Lower("index.HTML");
      assert l[0] == 'i' && l[1] == 'n' && l[2] == 'd' && l[3] == 'e' && l[4] == 'x';
      assert l[5] == '.' && l[6] == 'h' && l[7] == 't' && l[8] == 'm' && l[9] == 'l';
    }
    assert EndsWith("index.html", ".html");
    assert Lower("html") == "html";
    assert !EndsWith("html", ".html") && !EndsWith("html", ".htm") && !EndsWith("html", ".xml");
    assert Lower("notes.txt") == "notes.txt";
    assert !EndsWith("notes.txt", ".html") && !EndsWith("notes.txt", ".htm") && !EndsWith("notes.txt", ".xml");
  }
}
