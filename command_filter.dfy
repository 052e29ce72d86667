/** The multilingual command filter: from the command keys a handler
    listens to, the chat's language and the bot's username, decide whether
    a message is one of those commands and split it into
    `message.command`. The regular expressions of the filter are written
    out as the predicates they decide; command names, prefixes and the
    username are taken to be free of regular-expression metacharacters. */
module CommandFilter {
  import opened Text
  import opened StringTables

  // ----- arguments of command() ----------------------------------------------

  /** The `prefixes` argument: None, one string, or a list of strings. */
  datatype PrefixArg = NoPrefixes | OnePrefix(p: string) | PrefixList(ps: seq<string>)

  /** The prefix set the filter keeps: empty for "" or None, the elements
      of a list, or the one string given. */
  function NormalisePrefixes(a: PrefixArg): (r: set<string>)
    ensures a.NoPrefixes? || a == OnePrefix("") ==> r == {}
    ensures a.OnePrefix? && a.p != "" ==> r == {a.p}
    ensures a.PrefixList? ==> forall p :: p in r <==> p in a.ps
  {
    match a
    case NoPrefixes => {}
    case OnePrefix(p) => if p == "" then {} else {p}
    case PrefixList(ps) => set p | p in ps
  }

  /** `order` lists the elements of `prefixes` once each: the order in which
      Python iterates the set, which the model takes as given. */
  ghost predicate Enumerates(order: seq<string>, prefixes: set<string>) {
    && (forall i, j :: 0 <= i < j < |order| ==> order[i] != order[j])
    && (forall p :: p in prefixes <==> p in order)
  }

  /** The `commands` argument: one command key or a list of them. */
  datatype CommandsArg = OneCommand(key: string) | CommandList(keys: seq<string>)

  function CommandKeys(a: CommandsArg): (r: seq<string>)
    ensures a.OneCommand? ==> r == [a.key]
    ensures a.CommandList? ==> r == a.keys
  {
    match a
    case OneCommand(k) => [k]
    case CommandList(ks) => ks
  }

  // ----- candidate commands ----------------------------------------------------

  /** The command words a table entry contributes: a string is one word, a
      list is all of its words, anything else none. */
  function Words(v: Value): (r: seq<string>)
    ensures v.Str? ==> r == [v.s]
    ensures v.List? ==> r == v.items
    ensures v.Other? ==> r == []
  {
    match v
    case Str(s) => [s]
    case List(items) => items
    case Other => []
  }

  /** The words of `keys` in `t`, a missing key counting as "". */
  function Entries(keys: seq<string>, t: Table): seq<string>
    decreases |keys|
  {
    if keys == [] then []
    else Entries(keys[..|keys| - 1], t) + Words(GetOr(t, keys[|keys| - 1], Str("")))
  }

  /** A word is an entry exactly when some key contributes it. */
  lemma {:induction false} EntriesFrom(keys: seq<string>, t: Table, c: string)
    ensures c in Entries(keys, t) <==> exists k :: k in keys && c in Words(GetOr(t, k, Str("")))
    decreases |keys|
  {
    if keys != [] {
      var init := keys[..|keys| - 1];
      var last := keys[|keys| - 1];
      EntriesFrom(init, t, c);
      assert keys == init + [last];
      if c in Entries(keys, t) {
        if c in Entries(init, t) {
          var k :| k in init && c in Words(GetOr(t, k, Str("")));
          assert k in keys;
        } else {
          assert c in Words(GetOr(t, last, Str("")));
        }
      }
      if exists k :: k in keys && c in Words(GetOr(t, k, Str(""))) {
        var k :| k in keys && c in Words(GetOr(t, k, Str("")));
        if k != last {
          assert k in init;
        }
      }
    }
  }

  /** A key missing from the table contributes the empty word. */
  lemma {:induction false} MissingKeyIsEmpty(keys: seq<string>, t: Table, k: string)
    requires k in keys && k !in t
    ensures "" in Entries(keys, t)
  {
    EntriesFrom(keys, t, "");
  }

  /** The loop over the command keys that collects the localised and the
      English words. */
  method CollectCommands(keys: seq<string>, local: Table, en: Table) returns (localized: seq<string>, english: seq<string>)
    ensures localized == Entries(keys, local) && english == Entries(keys, en)
  {
    localized := [];
    english := [];
    var i := 0;
    while i < |keys|
      invariant 0 <= i <= |keys|
      invariant localized == Entries(keys[..i], local) && english == Entries(keys[..i], en)
    {
      assert keys[..i + 1][..i] == keys[..i];
      localized := localized + Words(GetOr(local, keys[i], Str("")));
      english := english + Words(GetOr(en, keys[i], Str("")));
      i := i + 1;
    }
    assert keys[..i] == keys;
  }

  /** A candidate: a command word and whether it is matched after a prefix. */
  type Candidate = (string, bool)

  function Tagged(words: seq<string>, withPrefix: bool): (r: seq<Candidate>)
    ensures |r| == |words|
    ensures forall i :: 0 <= i < |r| ==> r[i] == (words[i], withPrefix)
  {
    seq(|words|, i requires 0 <= i < |words| => (words[i], withPrefix))
  }

  /** The candidates in the order they are tried: English words after a
      prefix; for any other language then the localised words after a
      prefix and finally the localised words on their own. */
  function Candidates(lang: string, english: seq<string>, localized: seq<string>): seq<Candidate> {
    if lang == "en" then Tagged(english, true)
    else Tagged(english, true) + Tagged(localized, true) + Tagged(localized, false)
  }

  /** A word is tried without a prefix exactly when the language is not
      English and the word is a localised one. */
  lemma {:induction false} CandidatesBare(lang: string, english: seq<string>, localized: seq<string>, c: string)
    ensures (c, false) in Candidates(lang, english, localized) <==> lang != "en" && c in localized
  {
    var r := Candidates(lang, english, localized);
    if (c, false) in r {
      var i :| 0 <= i < |r| && r[i] == (c, false);
      assert lang != "en";
      assert localized[i - |english| - |localized|] == c;
    }
    if lang != "en" && c in localized {
      var i :| 0 <= i < |localized| && localized[i] == c;
      assert r[|english| + |localized| + i] == (c, false);
    }
  }

  /** A word is tried after a prefix exactly when it is an English word, or
      a localised one outside English. */
  lemma {:induction false} CandidatesPrefixed(lang: string, english: seq<string>, localized: seq<string>, c: string)
    ensures (c, true) in Candidates(lang, english, localized) <==> c in english || (lang != "en" && c in localized)
  {
    var r := Candidates(lang, english, localized);
    if (c, true) in r {
      var i :| 0 <= i < |r| && r[i] == (c, true);
      if i < |english| {
        assert english[i] == c;
      } else {
        assert localized[i - |english|] == c;
      }
    }
    if c in english {
      var i :| 0 <= i < |english| && english[i] == c;
      assert r[i] == (c, true);
    } else if lang != "en" && c in localized {
      var i :| 0 <= i < |localized| && localized[i] == c;
      assert r[|english| + i] == (c, true);
    }
  }

  /** For English chats the localised words are never tried, and every word
      is tried after a prefix, in the order of the English words. */
  lemma {:induction false} EnglishOnly(english: seq<string>, localized: seq<string>)
    ensures |Candidates("en", english, localized)| == |english|
    ensures forall i :: 0 <= i < |english| ==> Candidates("en", english, localized)[i] == (english[i], true)
  {
  }

  // ----- matching ----------------------------------------------------------

  /** `(?:\s|$)` at position `i` of `s`. */
  predicate Boundary(s: string, i: nat) {
    i == |s| || (i < |s| && IsSpace(s[i]))
  }

  /** `re.match(^(?:cmd(?:@?user)?)(?:\s|$), s)` succeeds: `s` starts with
      `cmd`, then `@user`, `user` or nothing, then whitespace or the end. */
  predicate CommandAt(s: string, cmd: string, user: string, ci: bool) {
    && StartsWithCase(s, cmd, ci)
    && var t := s[|cmd|..];
       || (StartsWithCase(t, "@" + user, ci) && Boundary(t, |user| + 1))
       || (StartsWithCase(t, user, ci) && Boundary(t, |user|))
       || Boundary(t, 0)
  }

  /** Text exactly `cmd` followed by whitespace or nothing matches. */
  lemma {:induction false} CommandAlone(cmd: string, rest: string, user: string, ci: bool)
    requires rest == [] || IsSpace(rest[0])
    ensures CommandAt(cmd + rest, cmd, user, ci)
  {
    assert (cmd + rest)[..|cmd|] == cmd;
    assert (cmd + rest)[|cmd|..] == rest;
  }

  /** Text `cmd@user` followed by whitespace or nothing matches. */
  lemma {:induction false} CommandForUser(cmd: string, user: string, rest: string, ci: bool)
    requires rest == [] || IsSpace(rest[0])
    ensures CommandAt(cmd + "@" + user + rest, cmd, user, ci)
  {
    var s := cmd + "@" + user + rest;
    assert s[..|cmd|] == cmd;
    var t := s[|cmd|..];
    assert t == "@" + user + rest;
    assert t[..|user| + 1] == "@" + user;
  }

  /** A longer word never matches inside a shorter command: what follows
      the command must be a boundary or the username. */
  lemma {:induction false} NoMatchInsideWord(cmd: string, c: char, user: string, ci: bool)
    requires !IsSpace(c) && c != '@' && user == []
    ensures !CommandAt(cmd + [c], cmd, user, ci)
  {
    var s := cmd + [c];
    if StartsWithCase(s, cmd, ci) {
      assert s[|cmd|..] == [c];
      assert ("@" + user)[0] == '@';
    }
  }

  /** The `@` before the username is optional, so a command glued to the
      bot's username matches as that command. */
  lemma {:induction false} CommandThenUser(cmd: string, user: string, rest: string, ci: bool)
    requires rest == [] || IsSpace(rest[0])
    ensures CommandAt(cmd + user + rest, cmd, user, ci)
  {
    var s := cmd + user + rest;
    assert s[..|cmd|] == cmd;
    var t := s[|cmd|..];
    assert t == user + rest;
    assert t[..|user|] == user;
  }

  /** For a bot named `bot`, the text `startbot` matches the command
      `start`. */
  lemma {:induction false} StartBotMatchesStart()
    ensures CommandAt("startbot", "start", "bot", false)
  {
    CommandThenUser("start", "bot", "", false);
    assert "start" + "bot" + "" == "startbot";
  }

  /** The prefix loop of `match_command`: the first prefix in `order` that
      starts the text and is followed by the command gives `prefix + cmd`. */
  function FirstPrefix(order: seq<string>, text: string, cmd: string, user: string, ci: bool): (r: Option<string>)
    ensures r.None? <==> forall i :: 0 <= i < |order| ==>
              !(StartsWith(text, order[i]) && CommandAt(text[|order[i]|..], cmd, user, ci))
    ensures r.Some? ==> exists i :: && 0 <= i < |order| && r.value == order[i] + cmd
                                  && StartsWith(text, order[i]) && CommandAt(text[|order[i]|..], cmd, user, ci)
                                  && forall j :: 0 <= j < i ==>
                                       !(StartsWith(text, order[j]) && CommandAt(text[|order[j]|..], cmd, user, ci))
    decreases |order|
  {
    if order == [] then None
    else if StartsWith(text, order[0]) && CommandAt(text[|order[0]|..], cmd, user, ci) then Some(order[0] + cmd)
    else
      var r := FirstPrefix(order[1..], text, cmd, user, ci);
      assert forall i :: 1 <= i < |order| ==> order[i] == order[1..][i - 1];
      r
  }

  /** `match_command(cmd, text, with_prefix)`: with a prefix and a
      non-empty prefix set, the first prefix that works; otherwise the
      command itself at the start of the text. */
  function MatchSpec(cmd: string, text: string, withPrefix: bool, order: seq<string>, user: string, ci: bool): (r: Option<string>)
    ensures withPrefix && order != [] && r.Some? ==> exists p :: p in order && r.value == p + cmd
    ensures (!withPrefix || order == []) ==> (r.Some? <==> CommandAt(text, cmd, user, ci))
    ensures (!withPrefix || order == []) && r.Some? ==> r.value == cmd
  {
    if withPrefix && order != [] then FirstPrefix(order, text, cmd, user, ci)
    else if CommandAt(text, cmd, user, ci) then Some(cmd)
    else None
  }

  /** `match_command` as the loop it is. */
  method MatchCommand(cmd: string, text: string, withPrefix: bool, order: seq<string>, user: string, ci: bool)
    returns (r: Option<string>)
    ensures r == MatchSpec(cmd, text, withPrefix, order, user, ci)
  {
    if withPrefix && order != [] {
      var i := 0;
      while i < |order|
        invariant 0 <= i <= |order|
        invariant FirstPrefix(order, text, cmd, user, ci) == FirstPrefix(order[i..], text, cmd, user, ci)
      {
        var prefix := order[i];
        if StartsWith(text, prefix) {
          var without := text[|prefix|..];
          if CommandAt(without, cmd, user, ci) {
            return Some(prefix + cmd);
          }
        }
        assert order[i..][1..] == order[i + 1..];
        i := i + 1;
      }
      return None;
    } else {
      if CommandAt(text, cmd, user, ci) {
        return Some(cmd);
      }
      return None;
    }
  }

  // ----- removing the command ---------------------------------------------

  /** The leftmost position where `pat` occurs in `text`: where an
      unanchored search for a pattern that starts with `pat` matches. */
  function FirstOccurrence(text: string, pat: string, ci: bool): (r: Option<nat>)
    ensures r.Some? ==> r.value <= |text| && StartsWithCase(text[r.value..], pat, ci)
    decreases |text|
  {
    if StartsWithCase(text, pat, ci) then Some(0)
    else if text == [] then None
    else
      match FirstOccurrence(text[1..], pat, ci)
      case None => None
      case Some(k) =>
        assert text[k + 1..] == text[1..][k..];
        Some(k + 1)
  }

  /** The occurrence found is the leftmost one, and none is found only when
      there is none. */
  lemma {:induction false} FirstOccurrenceLeftmost(text: string, pat: string, ci: bool)
    ensures FirstOccurrence(text, pat, ci).Some? ==>
              forall j :: 0 <= j < FirstOccurrence(text, pat, ci).value ==> !StartsWithCase(text[j..], pat, ci)
    ensures FirstOccurrence(text, pat, ci).None? ==> forall j :: 0 <= j <= |text| ==> !StartsWithCase(text[j..], pat, ci)
    decreases |text|
  {
    if !StartsWithCase(text, pat, ci) && text != [] {
      FirstOccurrenceLeftmost(text[1..], pat, ci);
      assert forall j :: 1 <= j <= |text| ==> text[j..] == text[1..][j - 1..];
    }
  }

  /** What `(?:@?user)?` consumes at the start of `t`: `@user` if it is
      there, otherwise `user` if it is there, otherwise nothing. */
  function UserLength(t: string, user: string, ci: bool): (n: nat)
    ensures n <= |t|
    ensures n == 0 || n == |user| || n == |user| + 1
  {
    if StartsWithCase(t, "@" + user, ci) then |user| + 1
    else if StartsWithCase(t, user, ci) then |user|
    else 0
  }

  /** What is left of the text after the matched command: an optional
      username and then one whitespace character are cut off its front. */
  function AfterCommand(t: string, user: string, ci: bool): (r: string)
    ensures |r| <= |t| && r == t[|t| - |r|..]
    ensures |t| - |r| <= |user| + 2
  {
    var rest := t[UserLength(t, user, ci)..];
    if rest != [] && IsSpace(rest[0]) then rest[1..] else rest
  }

  /** `re.sub(matched(?:@?user)?\s?, "", text, count=1)`: the first
      occurrence of the matched command, an optional username after it and
      one whitespace character after that are cut out. */
  function RemoveCommand(text: string, matched: string, user: string, ci: bool): (r: string)
    ensures |r| <= |text|
  {
    match FirstOccurrence(text, matched, ci)
    case None => text
    case Some(i) => text[..i] + AfterCommand(text[i + |matched|..], user, ci)
  }

  /** A text that starts with the matched command keeps what follows the
      command, less an optional username and one whitespace character. */
  lemma {:induction false} RemoveCommandAtStart(text: string, matched: string, user: string, ci: bool)
    requires StartsWithCase(text, matched, ci)
    ensures RemoveCommand(text, matched, user, ci) == AfterCommand(text[|matched|..], user, ci)
  {
    FirstOccurrenceAtStart(text, matched, ci);
    var r := AfterCommand(text[|matched|..], user, ci);
    assert text[..0] + r == r;
  }

  /** After the command word itself the rest of the text is kept: text
      `cmd` + " " + `args` gives `args`, when `args` does not begin with the
      username. */
  lemma {:induction false} RemoveCommandWord(matched: string, args: string, user: string, ci: bool)
    requires matched != [] && !StartsWithCase(" " + args, "@" + user, ci) && !StartsWithCase(" " + args, user, ci)
    ensures RemoveCommand(matched + " " + args, matched, user, ci) == args
  {
    var text := matched + " " + args;
    assert StartsWithCase(text, matched, ci) by {
      assert text[..|matched|] == matched;
      ExactImpliesCase(text, matched, ci);
    }
    RemoveCommandAtStart(text, matched, user, ci);
    assert text[|matched|..] == " " + args;
    AfterSpace(args, user, ci);
  }

  /** A text that starts with the pattern has its first occurrence at 0. */
  lemma {:induction false} FirstOccurrenceAtStart(text: string, pat: string, ci: bool)
    requires StartsWithCase(text, pat, ci)
    ensures FirstOccurrence(text, pat, ci) == Some(0)
  {
  }

  /** One space and no username after the command: only the space goes. */
  lemma {:induction false} AfterSpace(args: string, user: string, ci: bool)
    requires !StartsWithCase(" " + args, "@" + user, ci) && !StartsWithCase(" " + args, user, ci)
    ensures AfterCommand(" " + args, user, ci) == args
  {
    assert UserLength(" " + args, user, ci) == 0;
    assert (" " + args)[0..][1..] == args;
  }

  // ----- tokens --------------------------------------------------------------

  /** `re.sub(r"\\([\"'])", r"\1", t)`: a backslash before a quote is
      dropped. */
  function Unescape(t: string): (r: string)
    ensures |r| <= |t|
    decreases |t|
  {
    if |t| >= 2 && t[0] == '\\' && (t[1] == '"' || t[1] == '\'') then [t[1]] + Unescape(t[2..])
    else if t == [] then []
    else [t[0]] + Unescape(t[1..])
  }

  /** Text without backslashes is not changed by unescaping. */
  lemma {:induction false} UnescapePlain(t: string)
    requires '\\' !in t
    ensures Unescape(t) == t
    decreases |t|
  {
    if t != [] {
      assert '\\' !in t[1..];
      UnescapePlain(t[1..]);
    }
  }

  /** A backslash before every quote, the inverse of unescaping. */
  function Escape(w: string): string
    decreases |w|
  {
    if w == [] then []
    else if w[0] == '"' || w[0] == '\'' then ['\\', w[0]] + Escape(w[1..])
    else [w[0]] + Escape(w[1..])
  }

  /** Unescaping undoes escaping of text without backslashes. */
  lemma {:induction false} UnescapeEscape(w: string)
    requires '\\' !in w
    ensures Unescape(Escape(w)) == w
    decreases |w|
  {
    if w != [] {
      var rest := Escape(w[1..]);
      assert Unescape(rest) == w[1..] by {
        assert '\\' !in w[1..];
        UnescapeEscape(w[1..]);
      }
      if w[0] == '"' || w[0] == '\'' {
        var e := ['\\', w[0]] + rest;
        assert e[2..] == rest;
        assert Unescape(e) == [w[0]] + Unescape(rest);
      } else {
        var e := [w[0]] + rest;
        assert e[1..] == rest;
        assert Unescape(e) == [w[0]] + Unescape(rest);
      }
      assert [w[0]] + w[1..] == w;
    }
  }

  predicate Special(c: char) {
    IsSpace(c) || c == '"' || c == '\''
  }

  /** Length of the run `[^\s"']+` at the start of `s`. */
  function WordEnd(s: string): (k: nat)
    ensures k <= |s|
    ensures forall i :: 0 <= i < k ==> !Special(s[i])
    ensures k < |s| ==> Special(s[k])
    decreases |s|
  {
    if s == [] || Special(s[0]) then 0 else 1 + WordEnd(s[1..])
  }

  /** The items of `message.command` after the command: one per match of
      `([^\s"']+)|"([^"]*)"|'([^']*)'`, scanning left to right. A quoted
      match gives its unescaped inside; a bare word gives "", since only the
      two quoted groups are read. A quote without its closing partner
      matches nothing and is skipped. */
  function Tokens(s: string): seq<string>
    decreases |s|
  {
    if s == [] then []
    else if IsSpace(s[0]) then Tokens(s[1..])
    else if s[0] == '"' || s[0] == '\'' then
      if s[0] in s[1..] then
        var k := IndexOf(s[1..], s[0]);
        [Unescape(s[1..k + 1])] + Tokens(s[k + 2..])
      else Tokens(s[1..])
    else
      var k := WordEnd(s);
      assert k > 0;
      [""] + Tokens(s[k..])
  }

  /** A quoted token closed at `k + 1` gives its unescaped inside. */
  lemma {:induction false} QuotedToken(s: string, k: nat)
    requires k + 1 < |s| && (s[0] == '"' || s[0] == '\'') && s[k + 1] == s[0]
    requires forall i :: 1 <= i <= k ==> s[i] != s[0]
    ensures Tokens(s) == [Unescape(s[1..k + 1])] + Tokens(s[k + 2..])
  {
    assert s[1..][k] == s[0];
    assert s[0] !in s[1..][..k];
    assert IndexOf(s[1..], s[0]) == k;
  }

  /** A bare word of length `k` gives one empty item. */
  lemma {:induction false} BareToken(s: string, k: nat)
    requires 0 < k <= |s| && (k == |s| || Special(s[k])) && forall i :: 0 <= i < k ==> !Special(s[i])
    ensures Tokens(s) == [""] + Tokens(s[k..])
  {
    WordEndAt(s, k);
  }

  /** Arguments written as double-quoted words, each followed by a space. */
  function Quoted(words: seq<string>): string
    decreases |words|
  {
    if words == [] then [] else "\"" + words[0] + "\" " + Quoted(words[1..])
  }

  /** One quoted word is read back as itself. */
  lemma {:induction false} QuotedStep(w: string, rest: string)
    requires '"' !in w && '\\' !in w
    ensures Tokens("\"" + w + "\" " + rest) == [w] + Tokens(rest)
  {
    var s := "\"" + w + "\" " + rest;
    var k := |w|;
    assert s[1..k + 1] == w;
    assert s[k + 1] == '"';
    QuotedToken(s, k);
    UnescapePlain(w);
    assert s[k + 2..] == " " + rest;
    assert (" " + rest)[1..] == rest;
  }

  /** Double-quoted arguments without quotes or backslashes inside are read
      back exactly. */
  lemma {:induction false} QuotedRoundTrip(words: seq<string>)
    requires forall i :: 0 <= i < |words| ==> '"' !in words[i] && '\\' !in words[i]
    ensures Tokens(Quoted(words)) == words
    decreases |words|
  {
    if words != [] {
      QuotedStep(words[0], Quoted(words[1..]));
      QuotedRoundTrip(words[1..]);
    }
  }

  /** Bare words, each followed by a space. */
  function Spaced(words: seq<string>): string
    decreases |words|
  {
    if words == [] then [] else words[0] + " " + Spaced(words[1..])
  }

  /** Every bare word gives one empty item. */
  lemma {:induction false} BareWordsAreEmpty(words: seq<string>)
    requires forall i :: 0 <= i < |words| ==> words[i] != [] && forall j :: 0 <= j < |words[i]| ==> !Special(words[i][j])
    ensures Tokens(Spaced(words)) == seq(|words|, _ => "")
    decreases |words|
  {
    if words != [] {
      var w := words[0];
      var s := Spaced(words);
      assert s == w + " " + Spaced(words[1..]);
      assert s[..|w|] == w && s[|w|] == ' ';
      assert WordEnd(s) == |w| by {
        WordEndAt(s, |w|);
      }
      assert s[|w|..] == " " + Spaced(words[1..]);
      assert (" " + Spaced(words[1..]))[1..] == Spaced(words[1..]);
      BareWordsAreEmpty(words[1..]);
    }
  }

  /** The word run ends at the first special character, or at the end. */
  lemma {:induction false} WordEndAt(s: string, k: nat)
    requires k <= |s| && (k == |s| || Special(s[k])) && forall i :: 0 <= i < k ==> !Special(s[i])
    ensures WordEnd(s) == k
    decreases k
  {
    if k > 0 {
      assert forall i :: 0 <= i < k - 1 ==> s[1..][i] == s[i + 1];
      WordEndAt(s[1..], k - 1);
    }
  }

  /** As written, an escaped double quote inside double quotes ends the
      token: the backslash stays and the rest becomes a bare word. */
  lemma {:induction false} EscapedQuoteEndsToken()
    ensures Tokens("\"a\\\"b\"") == ["a\\", ""]
  {
    var s := "\"a\\\"b\"";
    QuotedToken(s, 2);
    assert s[1..3] == "a\\";
    assert Unescape("a\\") == "a\\";
    assert s[4..] == "b\"";
    BareToken("b\"", 1);
    assert "b\""[1..] == "\"";
    assert Tokens("\"") == [];
  }

  /** Inside single quotes an escaped double quote is unescaped. */
  lemma {:induction false} EscapedQuoteInSingleQuotes()
    ensures Tokens("'a\\\"b'") == ["a\"b"]
  {
    var s := "'a\\\"b'";
    QuotedToken(s, 4);
    assert s[1..5] == "a\\\"b";
    assert s[6..] == [];
    assert Unescape("\\\"b") == "\"b";
    assert Unescape("a\\\"b") == "a\"b";
  }

  // ----- the filter ----------------------------------------------------------

  /** What the filter reads of a message. */
  datatype Message = Message(text: Option<string>, caption: Option<string>)

  /** `message.text or message.caption`. */
  function MessageText(m: Message): Option<string> {
    if Truthy(m.text) then m.text else m.caption
  }

  /** The match of one candidate, kept only when it is a non-empty string. */
  function Hit(c: Candidate, text: string, order: seq<string>, user: string, ci: bool): Option<string> {
    var m := MatchSpec(c.0, text, c.1, order, user, ci);
    if m.Some? && m.value != [] then m else None
  }

  /** `message.command` once `matched` has been found in `text`. */
  function CommandOf(matched: string, text: string, user: string, ci: bool): (r: seq<string>)
    ensures |r| >= 1 && r[0] == matched
  {
    [matched] + Tokens(RemoveCommand(text, matched, user, ci))
  }

  /** `Hit` for one message, as a function of the candidate. */
  function HitOf(text: string, order: seq<string>, user: string, ci: bool): Candidate -> Option<string> {
    c => Hit(c, text, order, user, ci)
  }

  /** `CommandOf` for one message, as a function of the matched command. */
  function CommandFor(text: string, user: string, ci: bool): string -> seq<string> {
    matched => CommandOf(matched, text, user, ci)
  }

  /** The candidates are tried in order and the first hit gives the
      command. */
  function FirstHit(cands: seq<Candidate>, hit: Candidate -> Option<string>, command: string -> seq<string>): Option<seq<string>>
    decreases |cands|
  {
    if cands == [] then None
    else if hit(cands[0]).Some? then Some(command(hit(cands[0]).value))
    else FirstHit(cands[1..], hit, command)
  }

  /** No command comes out exactly when no candidate hits. */
  lemma {:induction false} FirstHitNone(cands: seq<Candidate>, hit: Candidate -> Option<string>, command: string -> seq<string>)
    ensures FirstHit(cands, hit, command).None? <==> forall i :: 0 <= i < |cands| ==> hit(cands[i]).None?
    decreases |cands|
  {
    if cands != [] && hit(cands[0]).None? {
      var tail := cands[1..];
      FirstHitNone(tail, hit, command);
      assert forall i :: 1 <= i < |cands| ==> cands[i] == tail[i - 1];
    }
  }

  /** When a command comes out, it is that of the first candidate that
      hits: every candidate before it misses. */
  lemma {:induction false} FirstHitIndex(cands: seq<Candidate>, hit: Candidate -> Option<string>, command: string -> seq<string>)
    returns (i: nat)
    requires FirstHit(cands, hit, command).Some?
    ensures i < |cands| && hit(cands[i]).Some?
    ensures forall j :: 0 <= j < i ==> hit(cands[j]).None?
    ensures FirstHit(cands, hit, command).value == command(hit(cands[i]).value)
    decreases |cands|
  {
    if hit(cands[0]).Some? {
      i := 0;
    } else {
      var tail := cands[1..];
      var k := FirstHitIndex(tail, hit, command);
      i := k + 1;
      assert cands[i] == tail[k];
      forall j | 0 <= j < i
        ensures hit(cands[j]).None?
      {
        if j > 0 {
          assert cands[j] == tail[j - 1];
        }
      }
    }
  }

  /** A candidate that does not hit passes the search on to the next. */
  lemma FirstHitSkip(cands: seq<Candidate>, i: nat, hit: Candidate -> Option<string>, command: string -> seq<string>)
    requires i < |cands| && hit(cands[i]).None?
    ensures FirstHit(cands[i..], hit, command) == FirstHit(cands[i + 1..], hit, command)
  {
    assert cands[i..][1..] == cands[i + 1..];
  }

  /** The filter's decision and `message.command`: None (the filter returns
      False and `message.command` stays None) when the message has no text
      and no caption, or when no candidate matches. */
  function FilterSpec(cands: seq<Candidate>, m: Message, order: seq<string>, user: string, ci: bool): (r: Option<seq<string>>)
    ensures !Truthy(MessageText(m)) ==> r.None?
  {
    var text := MessageText(m);
    if !Truthy(text) then None
    else FirstHit(cands, HitOf(text.value, order, user, ci), CommandFor(text.value, user, ci))
  }

  /** An accepted message's command starts with a non-empty matched
      command: one of the candidates with a prefix in front, or the
      candidate itself. */
  lemma {:induction false} FilterCommandWord(cands: seq<Candidate>, m: Message, order: seq<string>, user: string, ci: bool)
    requires FilterSpec(cands, m, order, user, ci).Some?
    ensures |FilterSpec(cands, m, order, user, ci).value| >= 1 && FilterSpec(cands, m, order, user, ci).value[0] != []
  {
    var text := MessageText(m).value;
    var i := FirstHitIndex(cands, HitOf(text, order, user, ci), CommandFor(text, user, ci));
  }

  /** A text that starts with `p` exactly and then with `cmd` (case-folded
      or not) starts with `p + cmd`. */
  lemma {:induction false} PrefixThenCase(text: string, p: string, cmd: string, ci: bool)
    requires StartsWith(text, p) && StartsWithCase(text[|p|..], cmd, ci)
    ensures StartsWithCase(text, p + cmd, ci)
  {
    var n := |p| + |cmd|;
    var w := text[|p|..][..|cmd|];
    assert text[..n] == p + w;
    if ci {
      forall i | 0 <= i < n
        ensures Fold(text[..n])[i] == Fold(p + cmd)[i]
      {
        if i >= |p| {
          assert Fold(w)[i - |p|] == Fold(cmd)[i - |p|];
        }
      }
    }
  }

  /** A match is found at the start of the text: the matched prefix and
      command begin it, letters compared case-folded when `ci`. */
  lemma {:induction false} MatchStarts(cmd: string, text: string, withPrefix: bool, order: seq<string>, user: string, ci: bool)
    requires MatchSpec(cmd, text, withPrefix, order, user, ci).Some?
    ensures StartsWithCase(text, MatchSpec(cmd, text, withPrefix, order, user, ci).value, ci)
  {
    if withPrefix && order != [] {
      var i :| && 0 <= i < |order| && FirstPrefix(order, text, cmd, user, ci).value == order[i] + cmd
               && StartsWith(text, order[i]) && CommandAt(text[|order[i]|..], cmd, user, ci);
      PrefixThenCase(text, order[i], cmd, ci);
    }
  }

  /** An accepted message begins with its matched command, and the rest of
      `message.command` is the tokens of what follows the command, an
      optional username and one whitespace character. */
  lemma {:induction false} FilterStartsWithCommand(cands: seq<Candidate>, m: Message, order: seq<string>, user: string, ci: bool)
    requires FilterSpec(cands, m, order, user, ci).Some?
    ensures var text := MessageText(m).value;
            var c := FilterSpec(cands, m, order, user, ci).value;
            && |c| >= 1 && StartsWithCase(text, c[0], ci)
            && c[1..] == Tokens(AfterCommand(text[|c[0]|..], user, ci))
  {
    var text := MessageText(m).value;
    var i := FirstHitIndex(cands, HitOf(text, order, user, ci), CommandFor(text, user, ci));
    var matched := Hit(cands[i], text, order, user, ci).value;
    MatchStarts(cands[i].0, text, cands[i].1, order, user, ci);
    RemoveCommandAtStart(text, matched, user, ci);
    var rest := Tokens(RemoveCommand(text, matched, user, ci));
    assert ([matched] + rest)[1..] == rest;
  }

  /** The loop over the candidates. */
  method Filter(cands: seq<Candidate>, m: Message, order: seq<string>, user: string, ci: bool)
    returns (accepted: bool, command: Option<seq<string>>)
    ensures accepted <==> command.Some?
    ensures command == FilterSpec(cands, m, order, user, ci)
  {
    var text := if Truthy(m.text) then m.text else m.caption;
    command := None;
    if !Truthy(text) {
      return false, None;
    }
    var i := 0;
    while i < |cands|
      invariant 0 <= i <= |cands|
      invariant FirstHit(cands, HitOf(text.value, order, user, ci), CommandFor(text.value, user, ci))
                == FirstHit(cands[i..], HitOf(text.value, order, user, ci), CommandFor(text.value, user, ci))
    {
      var (cmd, withPrefix) := cands[i];
      var matched := MatchCommand(cmd, text.value, withPrefix, order, user, ci);
      if matched.Some? && matched.value != [] {
        var rest := RemoveCommand(text.value, matched.value, user, ci);
        command := Some([matched.value] + Tokens(rest));
        return true, command;
      }
      FirstHitSkip(cands, i, HitOf(text.value, order, user, ci), CommandFor(text.value, user, ci));
      i := i + 1;
    }
    return false, None;
  }

  /** The whole filter for a message: the command words of `keys` in the
      chat's language and in English, tried against the message. `order`
      is the iteration order of the normalised prefix set. */
  method Command(commands: map<string, Table>, lang: string, keys: CommandsArg, prefixes: PrefixArg,
                 order: seq<string>, user: string, caseSensitive: bool, m: Message)
    returns (accepted: bool, command: Option<seq<string>>)
    requires "en" in commands
    requires Enumerates(order, NormalisePrefixes(prefixes))
    ensures accepted <==> command.Some?
    ensures command == FilterSpec(Candidates(lang, Entries(CommandKeys(keys), commands["en"]),
                                             Entries(CommandKeys(keys), GetCommand(commands, lang).value)),
                                  m, order, user, !caseSensitive)
  {
    var local := GetCommand(commands, lang).value;
    var localized, english := CollectCommands(CommandKeys(keys), local, commands["en"]);
    accepted, command := Filter(Candidates(lang, english, localized), m, order, user, !caseSensitive);
  }

  /** With an empty prefix set, a prefixed candidate is matched at the very
      start of the text. */
  lemma {:induction false} NoPrefixesMatchBare(cmd: string, text: string, user: string, ci: bool)
    ensures MatchSpec(cmd, text, true, [], user, ci).Some? <==> CommandAt(text, cmd, user, ci)
  {
  }

  /** As written, a command key missing from both tables contributes the
      word "", and the prefixed empty word then matches any message that is
      a bare prefix: the message "/" passes the filter. */
  lemma {:induction false} MissingKeyMatchesBarePrefix(user: string)
    ensures FilterSpec(Candidates("en", [""], []), Message(Some("/"), None), ["/"], user, true) == Some(["/"])
  {
    var text := "/";
    assert StartsWith(text, "/");
    assert text[1..] == [];
    assert CommandAt([], "", user, true);
    assert "/" + "" == "/";
    assert FirstPrefix(["/"], text, "", user, true) == Some("/");
    assert MatchSpec("", text, true, ["/"], user, true) == Some("/");
    assert Hit(("", true), text, ["/"], user, true) == Some("/");
    assert Candidates("en", [""], []) == [("", true)];
    assert RemoveCommand(text, "/", user, true) == [];
    assert CommandOf("/", text, user, true) == ["/"];
    assert FirstHit([("", true)], HitOf(text, ["/"], user, true), CommandFor(text, user, true)) == Some(["/"]);
  }
}
