/** The `/translate_to <Language>` command read from an inbound text. */
module Commands {
  import opened Basics
  import opened PyStr

  const CommandPrefix := "/translate_to"

  /** What a command text asks for: a new target language, or nothing (the
      command word was not followed by a space). */
  datatype Command = SetLanguage(lang: string) | MissingArgument

  /** `txt.lower().startswith("/translate_to")`: only the first thirteen
      characters are looked at, lower-cased. */
  predicate IsCommand(txt: string): (r: bool)
    ensures r <==> |txt| >= |CommandPrefix| && Lower(txt[..|CommandPrefix|]) == CommandPrefix
  {
    assert |txt| >= |CommandPrefix| ==> Lower(txt)[..|CommandPrefix|] == Lower(txt[..|CommandPrefix|]);
    StartsWith(Lower(txt), CommandPrefix)
  }

  /** The decision made for a text: `None` when it is not a command and falls
      through to the audio check; otherwise the command. The argument is the
      original text after the first space, stripped, so it keeps its case. */
  function ParseCommand(txt: string): (r: Option<Command>)
    ensures r.Some? <==> IsCommand(txt)
    ensures r == Some(MissingArgument) <==> IsCommand(txt) && ' ' !in txt
  {
    if !IsCommand(txt) then None
    else
      var parts := SplitOnce(txt, ' ');
      if |parts| == 2 then
        Some(SetLanguage(Strip(parts[1])))
      else Some(MissingArgument)
  }

  /** The prefix test ignores case: it looks only at the lower-cased first
      thirteen characters. */
  lemma CommandIgnoresCase(txt: string)
    ensures IsCommand(txt) <==>
      |txt| >= |CommandPrefix| && forall i :: 0 <= i < |CommandPrefix| ==> LowerChar(txt[i]) == CommandPrefix[i]
  {
    if |txt| >= |CommandPrefix| && forall i :: 0 <= i < |CommandPrefix| ==> LowerChar(txt[i]) == CommandPrefix[i] {
      assert Lower(txt)[..|CommandPrefix|] == CommandPrefix;
    }
  }

  /** A command word followed by a space and any remainder sets the target
      language to the stripped remainder, in its original case. */
  lemma CommandWithArgument(word: string, rest: string)
    requires IsCommand(word) && ' ' !in word
    ensures ParseCommand(word + " " + rest) == Some(SetLanguage(Strip(rest)))
  {
    var txt := word + " " + rest;
    assert Lower(txt)[..|CommandPrefix|] == Lower(word)[..|CommandPrefix|];
    assert txt[|word|] == ' ';
    var parts := SplitOnce(txt, ' ');
    assert parts[1] == rest;
  }

  /** A command written in capitals still matches, and the language keeps its case. */
  lemma UpperCaseCommand(lang: string)
    requires lang != [] ==> !IsSpace(lang[0]) && !IsSpace(lang[|lang| - 1])
    ensures ParseCommand("/TRANSLATE_TO " + lang) == Some(SetLanguage(lang))
  {
    var word := "/TRANSLATE_TO";
    assert IsCommand(word) && ' ' !in word by { CommandIgnoresCase(word); }
    assert "/TRANSLATE_TO " + lang == word + " " + lang;
    CommandWithArgument(word, lang);
    StripTrimmed(lang);
  }

  /** Whitespace around the argument is stripped; spaces inside it stay. */
  lemma PaddedArgument(pre: string, lang: string, post: string)
    requires forall i :: 0 <= i < |pre| ==> IsSpace(pre[i])
    requires forall i :: 0 <= i < |post| ==> IsSpace(post[i])
    requires lang != [] ==> !IsSpace(lang[0]) && !IsSpace(lang[|lang| - 1])
    ensures ParseCommand("/translate_to " + pre + lang + post) == Some(SetLanguage(lang))
  {
    var arg := pre + lang + post;
    assert IsCommand(CommandPrefix) && ' ' !in CommandPrefix by { CommandIgnoresCase(CommandPrefix); }
    assert "/translate_to " + pre + lang + post == CommandPrefix + " " + arg;
    CommandWithArgument(CommandPrefix, arg);
    StripPadding(pre, lang, post);
  }

  /** The documented form `/translate_to <Language>` sets that language. */
  lemma TranslateTo(lang: string)
    requires lang != [] ==> !IsSpace(lang[0]) && !IsSpace(lang[|lang| - 1])
    ensures ParseCommand("/translate_to " + lang) == Some(SetLanguage(lang))
  {
    assert IsCommand(CommandPrefix) && ' ' !in CommandPrefix by { CommandIgnoresCase(CommandPrefix); }
    assert "/translate_to " + lang == CommandPrefix + " " + lang;
    CommandWithArgument(CommandPrefix, lang);
    StripTrimmed(lang);
  }

  /** A command followed by a space and only whitespace sets the empty language. */
  lemma EmptyArgument(blank: string)
    requires forall i :: 0 <= i < |blank| ==> IsSpace(blank[i])
    ensures ParseCommand("/translate_to " + blank) == Some(SetLanguage(""))
  {
    PaddedArgument(blank, "", "");
    assert "/translate_to " + blank + "" + "" == "/translate_to " + blank;
  }

  /** Without a space the command is recognised but carries no argument,
      whatever follows the command word (a tab, the language itself, nothing). */
  lemma CommandWithoutSpace(rest: string)
    requires ' ' !in rest
    ensures ParseCommand("/translate_to" + rest) == Some(MissingArgument)
  {
    var txt := CommandPrefix + rest;
    assert IsCommand(CommandPrefix) && ' ' !in CommandPrefix by { CommandIgnoresCase(CommandPrefix); }
    assert Lower(txt)[..|CommandPrefix|] == Lower(CommandPrefix)[..|CommandPrefix|];
    assert ' ' !in txt;
  }

  /** A text that does not begin with a slash is never a command. */
  lemma NoSlashNoCommand(txt: string)
    requires txt == [] || txt[0] != '/'
    ensures ParseCommand(txt) == None
  {
    CommandIgnoresCase(txt);
    if |txt| >= |CommandPrefix| { assert LowerChar(txt[0]) != CommandPrefix[0]; }
  }
}
