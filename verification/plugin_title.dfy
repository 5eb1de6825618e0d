/** The title heuristic for a plugin file. A plugin's display name is the
    text of a `#` comment on its first line (or, when that comment is only a
    banner of `=` signs, on its second line); in every other case it is the
    file's base name. */
module PluginTitle {
  import opened Wrappers
  import opened Text

  /** Section banners that open many plugin files but are not titles. A
      candidate is compared with them after lower-casing. The first one is
      written in short pieces, which lets the proof that it is already lower
      case go a piece at a time. */
  const NotTitles: seq<string> := [
    "global states (" + "not halted by " + "pause/superpause" + ", no helper " + "limitations)",
    "functions",
    "configuration"
  ]

  /** `set(s) == {'='}`: non-empty and made only of `=` signs. */
  predicate IsBanner(s: string) {
    |s| > 0 && forall i :: 0 <= i < |s| ==> s[i] == '='
  }

  /** A stripped line that starts with the comment marker. */
  predicate IsComment(line: string) {
    |line| > 0 && line[0] == '#'
  }

  /** The text of a comment line: what follows the `#`, stripped. */
  function CommentText(line: string): string
    requires IsComment(line)
  {
    Strip(line[1..])
  }

  /** What a real title looks like: non-empty, no whitespace at either end,
      and not one of the boilerplate lines in any letter case. */
  predicate IsTitle(t: string, notTitles: seq<string>) {
    t != "" && IsStripped(t) && Lower(t) !in notTitles
  }

  /** The last two steps: a candidate is the title unless its lower-cased
      form is boilerplate, or it is empty. */
  function Accept(content: string, fileName: string, notTitles: seq<string>): (r: string)
    ensures content != "" && Lower(content) !in notTitles ==> r == content
    ensures content == "" || Lower(content) in notTitles ==> r == fileName
  {
    if Lower(content) in notTitles then fileName
    else if content != "" then content
    else fileName
  }

  /** Boilerplate is recognised in any letter case: a candidate that equals
      a lower-case boilerplate entry up to case is not accepted. */
  lemma AcceptBoilerplateAnyCase(content: string, b: string, fileName: string, notTitles: seq<string>)
    requires b in notTitles && Lower(b) == b
    requires EqualIgnoringCase(content, b)
    ensures Accept(content, fileName, notTitles) == fileName
  {
    LowerIgnoresCase(content, b);
  }

  /** The display name of one plugin file. `first` and `second` are what the
      first and second `readline()` calls return, or None when the call
      raised (the file could not be opened or decoded); `fileName` is the
      file's base name; `notTitles` is the boilerplate list (`NotTitles` in
      the plugin manager). The result is the base name or a real title, and a
      title always comes from a comment: the first line's, or the second
      line's when the first is a banner. */
  function Title(first: Option<string>, second: Option<string>, fileName: string,
                 notTitles: seq<string>): (r: string)
    ensures r == fileName || IsTitle(r, notTitles)
  {
    match first
    case None => fileName
    case Some(raw) =>
      var line := Strip(raw);
      if line == "" then fileName
      else if line[0] != '#' then fileName
      else
        var content := Strip(line[1..]);
        if content == "" then fileName
        else if IsBanner(content) then
          match second
          case None => fileName
          case Some(raw2) =>
            var line2 := Strip(raw2);
            if |line2| > 0 && line2[0] == '#' then Accept(Strip(line2[1..]), fileName, notTitles)
            else fileName
        else Accept(content, fileName, notTitles)
  }

  /** Where a title comes from: whenever the result is not the base name, it
      is the comment text of the first line, or, when that text is a banner,
      the comment text of the second line. */
  lemma TitleSource(first: Option<string>, second: Option<string>, fileName: string, notTitles: seq<string>)
    requires Title(first, second, fileName, notTitles) != fileName
    ensures first.Some? && IsComment(Strip(first.value))
    ensures var r := Title(first, second, fileName, notTitles);
            var content := CommentText(Strip(first.value));
            || (!IsBanner(content) && r == content)
            || (&& IsBanner(content)
                && second.Some? && IsComment(Strip(second.value))
                && r == CommentText(Strip(second.value)))
  {
  }

  /** The banner test is Python's `set(content) == {'='}`. */
  lemma BannerIsCharSet(s: string)
    ensures IsBanner(s) <==> (set c | c in s) == {'='}
  {
    var chars := set c | c in s;
    if chars == {'='} {
      forall i | 0 <= i < |s|
        ensures s[i] == '='
      {
        assert s[i] in chars;
      }
      assert '=' in chars;
    }
    if IsBanner(s) {
      assert s[0] in chars;
      assert forall c :: c in chars ==> c == '=';
    }
  }

  /** The three early fallbacks: the base name is the result when the
      stripped first line is empty, when it does not start with `#`, and
      when nothing is left after the `#` (and likewise when the first line
      cannot be read). */
  lemma TitleFallbacks(first: Option<string>, second: Option<string>, fileName: string, notTitles: seq<string>)
    requires || first.None?
             || Strip(first.value) == ""
             || Strip(first.value)[0] != '#'
             || CommentText(Strip(first.value)) == ""
    ensures Title(first, second, fileName, notTitles) == fileName
  {
  }

  /** The second line is read only behind a banner: whenever the first line
      is not a banner comment, the second line has no effect. */
  lemma TitleIgnoresSecond(first: Option<string>, s1: Option<string>, s2: Option<string>,
                           fileName: string, notTitles: seq<string>)
    requires !(first.Some? && IsComment(Strip(first.value)) && IsBanner(CommentText(Strip(first.value))))
    ensures Title(first, s1, fileName, notTitles) == Title(first, s2, fileName, notTitles)
  {
  }

  /** Behind a banner the result depends only on the second line: the base
      name when that line cannot be read or is not a comment, and its comment
      text when that text is a real title. */
  lemma TitleBanner(first: string, second: Option<string>, fileName: string, notTitles: seq<string>)
    requires IsComment(Strip(first)) && IsBanner(CommentText(Strip(first)))
    ensures !(second.Some? && IsComment(Strip(second.value))) ==>
              Title(Some(first), second, fileName, notTitles) == fileName
    ensures second.Some? && IsComment(Strip(second.value)) && IsTitle(CommentText(Strip(second.value)), notTitles) ==>
              Title(Some(first), second, fileName, notTitles) == CommentText(Strip(second.value))
  {
    var content := CommentText(Strip(first));
    assert content != "";
    if second.Some? && IsComment(Strip(second.value)) {
      var t := CommentText(Strip(second.value));
      assert Title(Some(first), second, fileName, notTitles) == Accept(t, fileName, notTitles);
    }
  }

  /** A boilerplate line, in any letter case, never becomes the title. */
  lemma TitleBoilerplate(first: Option<string>, second: Option<string>, fileName: string, notTitles: seq<string>)
    requires first.Some? && IsComment(Strip(first.value))
    requires !IsBanner(CommentText(Strip(first.value)))
    requires Lower(CommentText(Strip(first.value))) in notTitles
    ensures Title(first, second, fileName, notTitles) == fileName
  {
  }

  /** The same, for a first-line comment that spells a lower-case boilerplate
      entry `b` in any mix of letter cases. */
  lemma TitleBoilerplateAnyCase(first: Option<string>, second: Option<string>, fileName: string,
                                notTitles: seq<string>, b: string)
    requires first.Some? && IsComment(Strip(first.value))
    requires !IsBanner(CommentText(Strip(first.value)))
    requires b in notTitles && Lower(b) == b
    requires EqualIgnoringCase(CommentText(Strip(first.value)), b)
    ensures Title(first, second, fileName, notTitles) == fileName
  {
    LowerIgnoresCase(CommentText(Strip(first.value)), b);
    TitleBoilerplate(first, second, fileName, notTitles);
  }

  /** Every boilerplate entry is already lower case, so each one is matched
      in whatever letter case a plugin file writes it. */
  lemma NotTitlesLowerCase(b: string)
    requires b in NotTitles
    ensures Lower(b) == b
  {
    LowerGlobalStates();
    LowerFunctionsLower();
    LowerConfiguration();
  }

  /** A comment line, however it is padded with whitespace, parses as the
      comment marker followed by its text. */
  lemma CommentLine(a: string, b: string, t: string, c: string)
    requires AllSpace(a) && AllSpace(b) && AllSpace(c)
    requires t != "" && IsStripped(t)
    ensures IsComment(Strip(a + "#" + b + t + c))
    ensures CommentText(Strip(a + "#" + b + t + c)) == t
  {
    var line := "#" + b + t;
    assert a + "#" + b + t + c == a + line + c;
    assert line[|line| - 1] == t[|t| - 1];
    StripPadded(a, line, c);
    assert line[1..] == b + t + [];
    StripPadded(b, t, []);
  }

  /** The partner of `Title`: writing a title as a comment on the first line
      (with any whitespace around the marker and the text) and extracting it
      gives the title back, whatever the second line holds. */
  lemma TitleOfComment(a: string, b: string, t: string, c: string, second: Option<string>,
                       fileName: string, notTitles: seq<string>)
    requires AllSpace(a) && AllSpace(b) && AllSpace(c)
    requires IsTitle(t, notTitles) && !IsBanner(t)
    ensures Title(Some(a + "#" + b + t + c), second, fileName, notTitles) == t
  {
    CommentLine(a, b, t, c);
  }

  /** The same behind a banner: a banner comment on the first line and a
      title comment on the second yield that title. */
  lemma TitleBehindBanner(a: string, b: string, eqs: string, c: string,
                          a2: string, b2: string, t: string, c2: string,
                          fileName: string, notTitles: seq<string>)
    requires AllSpace(a) && AllSpace(b) && AllSpace(c)
    requires AllSpace(a2) && AllSpace(b2) && AllSpace(c2)
    requires IsBanner(eqs) && IsTitle(t, notTitles)
    ensures Title(Some(a + "#" + b + eqs + c), Some(a2 + "#" + b2 + t + c2), fileName, notTitles) == t
  {
    CommentLine(a, b, eqs, c);
    CommentLine(a2, b2, t, c2);
  }

  lemma LowerMyPlugin() ensures Lower("My Plugin") == "my plugin" {}
  lemma LowerRealTitle() ensures Lower("Real Title") == "real title" {}
  lemma LowerFunctions() ensures Lower("FUNCTIONS") == "functions" {}
  lemma LowerAlpha() ensures Lower("Alpha") == "alpha" {}
  lemma LowerFunctionsLower() ensures Lower("functions") == "functions" {}
  lemma LowerConfiguration() ensures Lower("configuration") == "configuration" {}
  lemma LowerGS1() ensures Lower("global states (") == "global states (" {}
  lemma LowerGS2() ensures Lower("not halted by ") == "not halted by " {}
  lemma LowerGS3() ensures Lower("pause/superpause") == "pause/superpause" {}
  lemma LowerGS4() ensures Lower(", no helper ") == ", no helper " {}
  lemma LowerGS5() ensures Lower("limitations)") == "limitations)" {}

  lemma LowerGlobalStates()
    ensures Lower(NotTitles[0]) == NotTitles[0]
  {
    var p1, p2, p3, p4, p5 := "global states (", "not halted by ", "pause/superpause", ", no helper ", "limitations)";
    LowerGS1(); LowerGS2(); LowerGS3(); LowerGS4(); LowerGS5();
    LowerAppend(p1, p2);
    LowerAppend(p1 + p2, p3);
    LowerAppend(p1 + p2 + p3, p4);
    LowerAppend(p1 + p2 + p3 + p4, p5);
  }

  /** Worked case: a plain title comment on the first line. */
  lemma MyPluginExample(line: string)
    requires line == "# My Plugin\n"
    ensures Title(Some(line), None, "mine.zss", NotTitles) == "My Plugin"
  {
    var b, t, c := " ", "My Plugin", "\n";
    assert "" + "#" + b + t + c == line;
    LowerMyPlugin();
    assert t[0] != '=';
    TitleOfComment("", b, t, c, None, "mine.zss", NotTitles);
  }

  /** Worked case: a banner line followed by the real title. */
  lemma RealTitleExample(line1: string, line2: string)
    requires line1 == "# ======\n" && line2 == "# Real Title\n"
    ensures Title(Some(line1), Some(line2), "real.zss", NotTitles) == "Real Title"
  {
    var b, eqs, t, c := " ", "======", "Real Title", "\n";
    assert "" + "#" + b + eqs + c == line1;
    assert "" + "#" + b + t + c == line2;
    LowerRealTitle();
    assert IsBanner(eqs);
    TitleBehindBanner("", b, eqs, c, "", b, t, c, "real.zss", NotTitles);
  }

  /** Worked case: a first line that is code, not a comment. */
  lemma CodeLineExample(line1: string, line2: string)
    requires line1 == "[Statedef -2]\n" && line2 == "# Not read\n"
    ensures Title(Some(line1), Some(line2), "code.zss", NotTitles) == "code.zss"
  {
    var code, c := "[Statedef -2]", "\n";
    assert "" + code + c == line1;
    StripPadded("", code, c);
    TitleFallbacks(Some(line1), Some(line2), "code.zss", NotTitles);
  }

  /** Worked case: a boilerplate line written in upper case. */
  lemma FunctionsExample(line: string)
    requires line == "# FUNCTIONS\n"
    ensures Title(Some(line), None, "lib.zss", NotTitles) == "lib.zss"
  {
    var b, t, c := " ", "FUNCTIONS", "\n";
    assert "" + "#" + b + t + c == line;
    CommentLine("", b, t, c);
    LowerFunctions();
    assert t[0] != '=';
    TitleBoilerplate(Some(line), None, "lib.zss", NotTitles);
  }
}
