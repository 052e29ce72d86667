/** The text parsers of the bot's utility module: welcome-message markup
    with inline buttons (`text ~ [label, url]...`), the format normaliser in
    front of it, the time-string parser and the note-name splitter.
    URL recognition is a parameter `isUrl`: true when the URL regular
    expression finds at least one URL in its argument. */
module Markup {
  import opened Text

  /** The placeholder that shields `~~` (strikethrough) while the text is
      split on the single `~` separator. */
  const Placeholder: string := "\U{a4}\U{a4}"

  // ----- findall(r"\[.+\,.+\]", s) ------------------------------------------

  /** The whole of `b` matches `\[.+,.+\]`: `.` is any character but a
      newline, and each `.+` takes at least one character. */
  predicate IsButton(b: string) {
    && |b| >= 5 && b[0] == '[' && b[|b| - 1] == ']' && '\n' !in b
    && exists j :: 2 <= j < |b| - 2 && b[j] == ','
  }

  /** Index of the first newline, or the length: where `.` stops matching. */
  function LineEnd(s: string): (k: nat)
    ensures k <= |s| && '\n' !in s[..k] && (k < |s| ==> s[k] == '\n')
  {
    if '\n' in s then IndexOf(s, '\n') else |s|
  }

  /** Index of the last `c` in `s`. */
  function LastIndexOf(s: string, c: char): (k: nat)
    requires c in s
    ensures k < |s| && s[k] == c
    ensures forall i :: k < i < |s| ==> s[i] != c
    decreases |s|
  {
    if s[|s| - 1] == c then |s| - 1
    else
      assert c in s[..|s| - 1];
      LastIndexOf(s[..|s| - 1], c)
  }

  /** A button at the start of `s` ends with a `]` on the first line and has a
      comma with a character on each side. */
  lemma {:induction false} ButtonsInLine(s: string)
    ensures forall m :: 0 <= m <= |s| && IsButton(s[..m]) ==>
              && m <= LineEnd(s) && s[m - 1] == ']'
              && exists j :: 2 <= j < m - 2 && s[j] == ','
  {
    forall m | 0 <= m <= |s| && IsButton(s[..m])
      ensures m <= LineEnd(s) && s[m - 1] == ']'
      ensures exists j :: 2 <= j < m - 2 && s[j] == ','
    {
      assert forall i :: 0 <= i < m ==> s[..m][i] == s[i];
      var j :| 2 <= j < m - 2 && s[..m][j] == ',';
      assert s[j] == ',';
    }
  }

  /** Length of the match of `\[.+,.+\]` at the start of `s`, if any. The
      greedy `.+` make it the longest prefix of `s` that is a button. */
  function ButtonAt(s: string): (n: Option<nat>)
    ensures n.Some? ==> n.value <= |s| && IsButton(s[..n.value])
    ensures n.Some? ==> forall m :: n.value < m <= |s| ==> !IsButton(s[..m])
    ensures n.None? ==> forall m :: 0 <= m <= |s| ==> !IsButton(s[..m])
  {
    if s == [] || s[0] != '[' then None
    else
      var e := LineEnd(s);
      ButtonsInLine(s);
      if ']' !in s[..e] then None
      else
        var r := LastIndexOf(s[..e], ']');
        if exists j :: 2 <= j <= r - 2 && s[j] == ',' then
          assert IsButton(s[..r + 1]) by {
            var j :| 2 <= j <= r - 2 && s[j] == ',';
            assert s[..r + 1][j] == ',';
            assert s[..r + 1] == s[..e][..r + 1];
          }
          Some(r + 1)
        else
          None
  }

  /** `re.findall(r"\[.+\,.+\]", s)`: leftmost matches, scanning on after
      each one. */
  function FindButtons(s: string): (bs: seq<string>)
    ensures forall i :: 0 <= i < |bs| ==> IsButton(bs[i])
    decreases |s|
  {
    if s == [] then []
    else
      match ButtonAt(s)
      case Some(n) => if n == 0 then [] else [s[..n]] + FindButtons(s[n..])
      case None => FindButtons(s[1..])
  }

  /** Whenever some stretch of `s` is shaped like a button, `findall` finds
      at least one button. */
  lemma {:induction false} ButtonFound(s: string, i: nat, j: nat)
    requires i <= j <= |s| && IsButton(s[i..j])
    ensures FindButtons(s) != []
    decreases i
  {
    if i == 0 {
      assert s[..j] == s[i..j];
      assert ButtonAt(s).Some?;
    } else if ButtonAt(s).None? {
      assert s[1..][i - 1..j - 1] == s[i..j];
      ButtonFound(s[1..], i - 1, j - 1);
    }
  }

  /** Text without an opening bracket holds no button. */
  lemma {:induction false} NoBracketNoButton(s: string)
    requires '[' !in s
    ensures FindButtons(s) == []
    decreases |s|
  {
    if s != [] {
      assert '[' !in s[1..];
      NoBracketNoButton(s[1..]);
    }
  }

  // ----- one button ---------------------------------------------------------

  /** `re.sub(r"[\[\]]", "", s)`: every bracket removed, every other
      character kept in order. */
  function Unbracket(s: string): (r: string)
    ensures '[' !in r && ']' !in r
    ensures forall c :: c in s && c != '[' && c != ']' ==> c in r
    ensures |r| <= |s|
  {
    if s == [] then []
    else if s[0] == '[' || s[0] == ']' then Unbracket(s[1..])
    else [s[0]] + Unbracket(s[1..])
  }

  datatype Button = Button(title: string, url: string)

  /** A button `[a,b...]` gives the label `a` (up to the first comma) and the
      URL `b` (up to the next comma) with its surrounding whitespace removed. */
  function ParseButton(b: string): (r: Button)
    requires IsButton(b)
    ensures ',' !in r.title
    ensures r.url == [] || (!IsSpace(r.url[0]) && !IsSpace(r.url[|r.url| - 1]))
  {
    var c :| c in b[2..|b| - 2] && c == ',';
    var u := Unbracket(b);
    assert ',' in u;
    var parts := Split(u, ',');
    Button(parts[0], Strip(parts[1]))
  }

  /** Brackets removed from a concatenation are those removed from each
      part. */
  lemma {:induction false} UnbracketAppend(x: string, y: string)
    ensures Unbracket(x + y) == Unbracket(x) + Unbracket(y)
    decreases |x|
  {
    if x == [] {
      assert x + y == y;
    } else {
      assert (x + y)[1..] == x[1..] + y;
      UnbracketAppend(x[1..], y);
    }
  }

  /** Text without brackets is kept as it is. */
  lemma {:induction false} UnbracketPlain(t: string)
    requires '[' !in t && ']' !in t
    ensures Unbracket(t) == t
    decreases |t|
  {
    if t != [] {
      assert '[' !in t[1..] && ']' !in t[1..];
      UnbracketPlain(t[1..]);
    }
  }

  /** Neither brackets, nor a comma, nor a newline. */
  predicate Plain(t: string) {
    '[' !in t && ']' !in t && ',' !in t && '\n' !in t
  }

  /** The brackets around `[title,url]` are the only ones removed. */
  lemma {:induction false} UnbracketButton(title: string, url: string)
    requires Plain(title) && Plain(url)
    ensures Unbracket("[" + title + "," + url + "]") == title + "," + url
  {
    var inner := title + "," + url;
    assert '[' !in inner && ']' !in inner by {
      forall i | 0 <= i < |inner|
        ensures inner[i] != '[' && inner[i] != ']'
      {
        if i < |title| {
          assert inner[i] == title[i];
        } else if i > |title| {
          assert inner[i] == url[i - |title| - 1];
        }
      }
    }
    UnbracketAppend("[", inner + "]");
    UnbracketAppend(inner, "]");
    UnbracketPlain(inner);
    assert "[" + title + "," + url + "]" == "[" + (inner + "]");
  }

  /** A button written `[title,url]` is recognised, and gives back its
      title and its URL without surrounding whitespace. */
  lemma {:induction false} ButtonRoundTrip(title: string, url: string)
    requires title != [] && url != []
    requires Plain(title) && Plain(url)
    ensures IsButton("[" + title + "," + url + "]")
    ensures ParseButton("[" + title + "," + url + "]") == Button(title, Strip(url))
  {
    var s := "[" + title + "," + url + "]";
    assert s[1 + |title|] == ',';
    assert '\n' !in s by {
      forall i | 0 <= i < |s|
        ensures s[i] != '\n'
      {
        if 1 <= i <= |title| {
          assert s[i] == title[i - 1];
        } else if |title| + 2 <= i < |s| - 1 {
          assert s[i] == url[i - |title| - 2];
        }
      }
    }
    UnbracketButton(title, url);
    SplitJoin([title, url], ',');
    assert Join([title, url], ',') == title + "," + url;
  }

  // ----- the keyboard, a Python dict ----------------------------------------

  /** A dict from label to URL in insertion order. */
  type Keyboard = seq<Button>

  function Lookup(kb: Keyboard, title: string): Option<string> {
    if kb == [] then None
    else if kb[0].title == title then Some(kb[0].url)
    else Lookup(kb[1..], title)
  }

  predicate DistinctLabels(kb: Keyboard) {
    forall i, j :: 0 <= i < j < |kb| ==> kb[i].title != kb[j].title
  }

  lemma {:induction false} LookupNone(kb: Keyboard, title: string)
    ensures Lookup(kb, title).None? <==> forall i :: 0 <= i < |kb| ==> kb[i].title != title
    decreases |kb|
  {
    if kb != [] {
      LookupNone(kb[1..], title);
      assert forall i :: 1 <= i < |kb| ==> kb[i] == kb[1..][i - 1];
    }
  }

  /** `kb[label] = url`: an existing label keeps its place and takes the new
      URL, a new title goes to the end. */
  function Put(kb: Keyboard, title: string, url: string): Keyboard
    decreases |kb|
  {
    if kb == [] then [Button(title, url)]
    else if kb[0].title == title then [Button(title, url)] + kb[1..]
    else [kb[0]] + Put(kb[1..], title, url)
  }

  /** Putting a label into a dict with distinct labels: the labels stay
      distinct, the label maps to the new URL, every other label keeps its
      URL, the dict grows by one exactly when the label is new, and the
      labels already there keep their places. */
  lemma {:induction false} PutSpec(kb: Keyboard, title: string, url: string)
    requires DistinctLabels(kb)
    ensures DistinctLabels(Put(kb, title, url))
    ensures Lookup(Put(kb, title, url), title) == Some(url)
    ensures forall l :: l != title ==> Lookup(Put(kb, title, url), l) == Lookup(kb, l)
    ensures |Put(kb, title, url)| == |kb| + (if Lookup(kb, title).Some? then 0 else 1)
    ensures forall i :: 0 <= i < |kb| ==> Put(kb, title, url)[i].title == kb[i].title
    decreases |kb|
  {
    var r := Put(kb, title, url);
    if kb != [] && kb[0].title == title {
      assert r[1..] == kb[1..];
      assert forall l :: l != title ==> Lookup(r, l) == Lookup(kb[1..], l);
    } else if kb != [] {
      var rest := Put(kb[1..], title, url);
      PutSpec(kb[1..], title, url);
      assert r[1..] == rest;
      LookupNone(kb[1..], kb[0].title);
      LookupNone(rest, kb[0].title);
    }
  }

  /** The keyboard the button loop builds: buttons in order, those whose URL
      is not recognised skipped. */
  function KeyboardOf(buttons: seq<string>, isUrl: string -> bool): Keyboard
    requires forall i :: 0 <= i < |buttons| ==> IsButton(buttons[i])
    decreases |buttons|
  {
    if buttons == [] then []
    else
      var kb := KeyboardOf(buttons[..|buttons| - 1], isUrl);
      var b := ParseButton(buttons[|buttons| - 1]);
      if isUrl(b.url) then Put(kb, b.title, b.url) else kb
  }

  /** Labels of the keyboard are distinct: a repeated label replaces the
      earlier URL. */
  lemma {:induction false} KeyboardDistinct(buttons: seq<string>, isUrl: string -> bool)
    requires forall i :: 0 <= i < |buttons| ==> IsButton(buttons[i])
    ensures DistinctLabels(KeyboardOf(buttons, isUrl))
    decreases |buttons|
  {
    if buttons != [] {
      var init := buttons[..|buttons| - 1];
      KeyboardDistinct(init, isUrl);
      var b := ParseButton(buttons[|buttons| - 1]);
      PutSpec(KeyboardOf(init, isUrl), b.title, b.url);
    }
  }

  /** The URL of the last button with this label whose URL is recognised. */
  function LastValidUrl(buttons: seq<string>, title: string, isUrl: string -> bool): Option<string>
    requires forall i :: 0 <= i < |buttons| ==> IsButton(buttons[i])
    decreases |buttons|
  {
    if buttons == [] then None
    else
      var b := ParseButton(buttons[|buttons| - 1]);
      if b.title == title && isUrl(b.url) then Some(b.url)
      else LastValidUrl(buttons[..|buttons| - 1], title, isUrl)
  }

  /** Each label of the keyboard maps to the URL of its last valid button;
      a title none of whose buttons has a valid URL is absent. */
  lemma {:induction false} KeyboardLookup(buttons: seq<string>, title: string, isUrl: string -> bool)
    requires forall i :: 0 <= i < |buttons| ==> IsButton(buttons[i])
    ensures Lookup(KeyboardOf(buttons, isUrl), title) == LastValidUrl(buttons, title, isUrl)
    decreases |buttons|
  {
    if buttons != [] {
      var init := buttons[..|buttons| - 1];
      KeyboardLookup(init, title, isUrl);
      KeyboardDistinct(init, isUrl);
      var b := ParseButton(buttons[|buttons| - 1]);
      PutSpec(KeyboardOf(init, isUrl), b.title, b.url);
    }
  }

  // ----- extract_text_and_keyb ----------------------------------------------

  /** The text stripped, then one leading and one trailing backtick removed. */
  function Unwrap(text: string): string {
    var t := Strip(text);
    var t1 := if StartsWith(t, "`") then t[1..] else t;
    if EndsWith(t1, "`") then t1[..|t1| - 1] else t1
  }

  function Protect(t: string): string {
    if Contains(t, "~~") then Replace(t, "~~", Placeholder) else t
  }

  function Restore(t: string): string {
    if Contains(t, Placeholder) then Replace(t, Placeholder, "~~") else t
  }

  /** The body text and keyboard of a welcome message, or None when the text
      does not split into exactly two parts on a single `~`. */
  function Extract(text: string, isUrl: string -> bool): Option<(string, Keyboard)> {
    var parts := Split(Protect(Unwrap(text)), '~');
    if |parts| != 2 then None
    else Some((Restore(parts[0]), KeyboardOf(FindButtons(parts[1]), isUrl)))
  }

  method ExtractTextAndKeyboard(text: string, isUrl: string -> bool) returns (r: Option<(string, Keyboard)>)
    ensures r == Extract(text, isUrl)
  {
    var t := Strip(text);
    if StartsWith(t, "`") {
      t := t[1..];
    }
    if EndsWith(t, "`") {
      t := t[..|t| - 1];
    }
    assert t == Unwrap(text);
    if Contains(t, "~~") {
      t := Replace(t, "~~", Placeholder);
    }
    assert t == Protect(Unwrap(text));
    var parts := Split(t, '~');
    if |parts| != 2 {
      return None;
    }
    var body, keyb := parts[0], parts[1];
    if Contains(body, Placeholder) {
      body := Replace(body, Placeholder, "~~");
    }
    assert body == Restore(parts[0]);
    var buttons := FindButtons(keyb);
    var keyboard := BuildKeyboard(buttons, isUrl);
    return Some((body, keyboard));
  }

  /** The loop over the buttons found: each one whose URL is recognised is
      put into the keyboard. */
  method BuildKeyboard(buttons: seq<string>, isUrl: string -> bool) returns (keyboard: Keyboard)
    requires forall i :: 0 <= i < |buttons| ==> IsButton(buttons[i])
    ensures keyboard == KeyboardOf(buttons, isUrl)
  {
    keyboard := [];
    var i := 0;
    while i < |buttons|
      invariant 0 <= i <= |buttons|
      invariant keyboard == KeyboardOf(buttons[..i], isUrl)
    {
      var b := ParseButton(buttons[i]);
      KeyboardStep(buttons, i, isUrl);
      if isUrl(b.url) {
        keyboard := Put(keyboard, b.title, b.url);
      }
      i := i + 1;
    }
    assert buttons[..i] == buttons;
  }

  /** The keyboard of the first `i + 1` buttons: that of the first `i`,
      with button `i` put in when its URL is recognised. */
  lemma {:induction false} KeyboardStep(buttons: seq<string>, i: nat, isUrl: string -> bool)
    requires i < |buttons|
    requires forall k :: 0 <= k < |buttons| ==> IsButton(buttons[k])
    ensures KeyboardOf(buttons[..i + 1], isUrl)
            == if isUrl(ParseButton(buttons[i]).url)
               then Put(KeyboardOf(buttons[..i], isUrl), ParseButton(buttons[i]).title, ParseButton(buttons[i]).url)
               else KeyboardOf(buttons[..i], isUrl)
  {
    assert buttons[..i + 1][..i] == buttons[..i];
  }

  /** A string of which no character is `p[j]` does not contain `p`. */
  lemma {:induction false} NotContains(s: string, p: string, j: nat)
    requires j < |p| && p[j] !in s
    ensures !Contains(s, p)
    decreases |s|
  {
    if |p| <= |s| {
      assert s[..|p|][j] == s[j];
    }
    if s != [] {
      NotContains(s[1..], p, j);
    }
  }

  /** A text with a single `c` does not contain `cc`. */
  lemma {:induction false} SingleNoPair(x: string, y: string, c: char)
    requires c !in x && c !in y
    ensures !Contains(x + [c] + y, [c, c])
    decreases |x|
  {
    var s := x + [c] + y;
    if x == [] {
      assert s == [c] + y;
      assert s[1..] == y;
      if |s| >= 2 {
        assert s[..2][1] == y[0];
        assert y[0] in y;
      }
      assert !StartsWith(s, [c, c]);
      NotContains(y, [c, c], 0);
    } else {
      assert s[0] == x[0];
      assert s[1..] == x[1..] + [c] + y;
      SingleNoPair(x[1..], y, c);
    }
  }

  /** Shielding `~~` then splitting on `~`: the restored first part is the
      text up to the separator, every `~~` in it kept. */
  lemma {:induction false} ProtectPrefix(s: string, a: string, b: string)
    requires '\U{a4}' !in s && '~' !in a
    requires Replace(s, "~~", Placeholder) == a + ['~'] + b
    ensures |Replace(a, Placeholder, "~~")| < |s|
    ensures s[..|Replace(a, Placeholder, "~~")|] == Replace(a, Placeholder, "~~")
    ensures s[|Replace(a, Placeholder, "~~")|] == '~'
    decreases |s|
  {
    var s1 := a + ['~'] + b;
    if |s| < 2 {
      assert s1 == s;
      assert |s1| >= |a| + 1;
    } else if s[..2] == "~~" {
      assert s1 == Placeholder + Replace(s[2..], "~~", Placeholder);
      assert s1[0] == '\U{a4}' && s1[1] == '\U{a4}';
      assert |a| >= 2;
      var a' := a[2..];
      assert a == Placeholder + a';
      assert Replace(s[2..], "~~", Placeholder) == a' + ['~'] + b by {
        assert s1[2..] == a' + ['~'] + b;
      }
      ProtectPrefix(s[2..], a', b);
      assert Replace(a, Placeholder, "~~") == "~~" + Replace(a', Placeholder, "~~");
      assert s == "~~" + s[2..];
    } else {
      assert s1 == [s[0]] + Replace(s[1..], "~~", Placeholder);
      if a == [] {
        assert s1[0] == '~';
      } else {
        var a' := a[1..];
        assert s1[0] == a[0];
        assert s[0] != '\U{a4}';
        assert Replace(s[1..], "~~", Placeholder) == a' + ['~'] + b by {
          assert s1[1..] == a' + ['~'] + b;
        }
        assert '~' !in a';
        ProtectPrefix(s[1..], a', b);
        assert a == [s[0]] + a';
        ReplacePeel([s[0]], a', Placeholder, "~~");
        assert s == [s[0]] + s[1..];
      }
    }
  }

  lemma {:induction false} ProtectIsReplace(t: string)
    ensures Protect(t) == Replace(t, "~~", Placeholder)
    ensures Restore(t) == Replace(t, Placeholder, "~~")
  {
    if !Contains(t, "~~") {
      ReplaceAbsent(t, "~~", Placeholder);
    }
    if !Contains(t, Placeholder) {
      ReplaceAbsent(t, Placeholder, "~~");
    }
  }

  /** Shielding, splitting and restoring: the restored first part followed
      by the separator starts the text. */
  lemma {:induction false} ProtectedSplitPrefix(t: string)
    requires '\U{a4}' !in t
    requires |Split(Protect(t), '~')| == 2
    ensures StartsWith(t, Restore(Split(Protect(t), '~')[0]) + "~")
  {
    var p := Protect(t);
    var parts := Split(p, '~');
    assert p == parts[0] + ['~'] + parts[1] by {
      SplitTwo(p, '~');
    }
    assert '~' !in parts[0];
    assert Replace(t, "~~", Placeholder) == p by {
      ProtectIsReplace(t);
    }
    var body := Restore(parts[0]);
    assert body == Replace(parts[0], Placeholder, "~~") by {
      ProtectIsReplace(parts[0]);
    }
    ProtectPrefix(t, parts[0], parts[1]);
    assert t[..|body| + 1] == body + "~";
  }

  /** The body returned is exactly the unwrapped text before the separator:
      `~~` in the body survives the split. */
  lemma {:induction false} ExtractBodyIsPrefix(text: string, isUrl: string -> bool)
    requires '\U{a4}' !in Unwrap(text)
    requires Extract(text, isUrl).Some?
    ensures StartsWith(Unwrap(text), Extract(text, isUrl).value.0 + "~")
  {
    ProtectedSplitPrefix(Unwrap(text));
  }

  /** A text with one `~` is left alone by the shielding and splits there. */
  lemma {:induction false} SingleSeparatorSplit(body: string, rest: string)
    requires '~' !in body && '~' !in rest
    ensures Protect(body + "~" + rest) == body + "~" + rest
    ensures Split(body + "~" + rest, '~') == [body, rest]
  {
    var text := body + "~" + rest;
    assert text == body + ['~'] + rest;
    SingleNoPair(body, rest, '~');
    assert Join([body, rest], '~') == text;
    SplitJoin([body, rest], '~');
  }

  /** A text with one `~` and no wrapping splits there: the body is the
      restored part before it and the keyboard is read from the rest. */
  lemma {:induction false} ExtractSingleSeparator(body: string, rest: string, isUrl: string -> bool)
    requires '~' !in body && '~' !in rest
    requires Unwrap(body + "~" + rest) == body + "~" + rest
    ensures Extract(body + "~" + rest, isUrl) == Some((Restore(body), KeyboardOf(FindButtons(rest), isUrl)))
  {
    SingleSeparatorSplit(body, rest);
  }

  /** `a¤¤b` is restored to `a~~b`. */
  lemma {:induction false} RestoreWrittenPlaceholder()
    ensures Restore("a\U{a4}\U{a4}b") == "a~~b"
  {
    var body := "a\U{a4}\U{a4}b";
    assert body == "a" + Placeholder + "b";
    ContainsAt(body, Placeholder, 1);
    assert body[0..] == body && body[..2][0] == 'a';
    ReplaceFirst("a", "b", Placeholder, "~~");
    NotContains("b", Placeholder, 0);
    ReplaceAbsent("b", Placeholder, "~~");
  }

  /** A `¤¤` that the user writes in the body also comes back as `~~`: the
      body of `a¤¤b~[x,y]` is `a~~b`. */
  lemma {:induction false} WrittenPlaceholderRestored(isUrl: string -> bool)
    ensures Extract("a\U{a4}\U{a4}b~[x,y]", isUrl) == Some(("a~~b", KeyboardOf(FindButtons("[x,y]"), isUrl)))
  {
    var text := "a\U{a4}\U{a4}b" + "~" + "[x,y]";
    assert text == "a\U{a4}\U{a4}b~[x,y]";
    StripUntouched(text);
    assert text[..1] == "a";
    assert Unwrap(text) == text;
    ExtractSingleSeparator("a\U{a4}\U{a4}b", "[x,y]", isUrl);
    RestoreWrittenPlaceholder();
  }

  /** Without any `~` the text has no separator and extraction fails. */
  lemma {:induction false} ExtractNeedsSeparator(text: string, isUrl: string -> bool)
    requires '~' !in Unwrap(text)
    ensures Extract(text, isUrl).None?
  {
    NotContains(Unwrap(text), "~~", 0);
  }

  /** Backticks around the message are removed, one on each side. */
  lemma {:induction false} UnwrapQuoted(s: string)
    ensures Unwrap("`" + s + "`") == s
  {
    var q := "`" + s + "`";
    assert !IsSpace(q[0]) && !IsSpace(q[|q| - 1]);
    assert TrimLeft(q) == q;
    assert TrimRight(q) == q;
    assert q[1..] == s + "`";
    assert (s + "`")[..|s|] == s;
  }

  // ----- check_format -------------------------------------------------------

  const Separator: string := "\n~\nbutton="

  /** Removing the inserted `\n~\n` undoes the separator insertion on text
      that had no `~` of its own. */
  lemma {:induction false} InsertSeparatorInverse(s: string)
    requires '~' !in s
    ensures Replace(Replace(s, "button=", Separator), "\n~\n", "") == s
    decreases |s|
  {
    var r1 := Replace(s, "button=", Separator);
    if |s| < 7 {
      NotContains(s, "\n~\n", 1);
      ReplaceAbsent(s, "\n~\n", "");
    } else if s[..7] == "button=" {
      var x := Replace(s[7..], "button=", Separator);
      assert r1 == Separator + x;
      assert r1[..3] == "\n~\n";
      assert r1[3..] == "button=" + x;
      ReplacePeel("button=", x, "\n~\n", "");
      InsertSeparatorInverse(s[7..]);
      assert s == "button=" + s[7..];
    } else {
      var y := Replace(s[1..], "button=", Separator);
      assert r1 == [s[0]] + y;
      InsertSeparatorInverse(s[1..]);
      if s[0] != '\n' {
        ReplacePeel([s[0]], y, "\n~\n", "");
      } else {
        FirstAfterInsert(s[1..]);
        assert r1[..3] != "\n~\n" by {
          assert r1[1] == y[0];
        }
        assert r1[1..] == y;
      }
      assert s == [s[0]] + s[1..];
    }
  }

  /** In a text without `~`, inserting the separators never makes the
      result start with `~`: the separator always follows a newline. */
  lemma {:induction false} FirstAfterInsert(t: string)
    requires '~' !in t
    ensures Replace(t, "button=", Separator) == [] || Replace(t, "button=", Separator)[0] != '~'
  {
  }

  /** Inserting the separator adds a `~` whenever the text has a `button=`. */
  lemma {:induction false} InsertSeparatorAdds(s: string)
    ensures Contains(s, "button=") ==> '~' in Replace(s, "button=", Separator)
    decreases |s|
  {
    var r1 := Replace(s, "button=", Separator);
    if Contains(s, "button=") {
      ContainsLength(s, "button=");
      if s[..7] == "button=" {
        assert r1[1] == '~';
      } else {
        assert r1 == [s[0]] + Replace(s[1..], "button=", Separator);
        InsertSeparatorAdds(s[1..]);
      }
    }
  }

  /** Text without `~` has no `\n~\n` to remove. */
  lemma {:induction false} NoTildeNothingRemoved(s: string)
    ensures '~' !in s ==> Replace(s, "\n~\n", "") == s
  {
    if '~' !in s {
      NotContains(s, "\n~\n", 1);
      ReplaceAbsent(s, "\n~\n", "");
    }
  }

  /** `check_format`: buttons without a separator get one before each
      `button=`; text with a separator whose extraction fails is rejected as
      empty; anything else is returned unchanged. */
  function CheckFormat(raw: string, isUrl: string -> bool): (r: string)
    ensures FindButtons(raw) == [] ==> r == raw
    ensures '~' in raw && Extract(raw, isUrl).Some? ==> r == raw
    ensures '~' in raw && FindButtons(raw) != [] && Extract(raw, isUrl).None? ==> r == []
    ensures '~' !in raw ==> Replace(r, "\n~\n", "") == raw
    ensures '~' !in raw && FindButtons(raw) != [] && Contains(raw, "button=") ==> '~' in r
    ensures '~' !in raw && FindButtons(raw) != [] ==> r == Replace(raw, "button=", Separator)
  {
    var keyb := FindButtons(raw);
    if keyb != [] && '~' !in raw then
      InsertSeparatorInverse(raw);
      InsertSeparatorAdds(raw);
      Replace(raw, "button=", Separator)
    else if '~' in raw && keyb != [] then
      if Extract(raw, isUrl).None? then [] else raw
    else
      NoTildeNothingRemoved(raw);
      raw
  }

  /** Buttons without a separator: the separator goes right before the
      first `button=`, and the text before it is kept. */
  lemma {:induction false} SeparatorBeforeFirstButton(raw: string, a: string, b: string, isUrl: string -> bool)
    requires raw == a + "button=" + b && '~' !in raw && FindButtons(raw) != []
    requires forall i :: 0 <= i < |a| ==> !StartsWith(raw[i..], "button=")
    ensures CheckFormat(raw, isUrl) == a + Separator + Replace(b, "button=", Separator)
  {
    ReplaceFirst(a, b, "button=", Separator);
  }

  // ----- time_converter -----------------------------------------------------

  /** Outcome of `time_converter`: a deadline `minutes` after `now`, the
      "Incorrect time specified." reply, or the IndexError that indexing the
      last character of an empty string raises. */
  datatype TimeResult = At(time: int) | IncorrectTime | EmptyIndexError

  function UnitMinutes(u: char): nat {
    if u == 'm' then 1 else if u == 'h' then 60 else if u == 'd' then 1440 else 0
  }

  /** `time_converter(now, v)`: `v` must be a non-empty string of decimal
      digits followed by one of the units m, h, d in either case. */
  function TimeConverter(now: int, v: string): (r: TimeResult)
    ensures r.EmptyIndexError? <==> v == []
    ensures r.At? <==> |v| >= 2 && AllDigits(v[..|v| - 1]) && Lower(v[|v| - 1]) in "mhd"
    ensures r.At? ==> r.time - now == DigitsValue(v[..|v| - 1]) * UnitMinutes(Lower(v[|v| - 1]))
  {
    if v == [] then EmptyIndexError
    else
      var unit := Lower(v[|v| - 1]);
      var digits := v[..|v| - 1];
      if digits == [] || !AllDigits(digits) then IncorrectTime
      else if unit == 'm' then At(now + DigitsValue(digits))
      else if unit == 'h' then At(now + DigitsValue(digits) * 60)
      else if unit == 'd' then At(now + DigitsValue(digits) * 1440)
      else IncorrectTime
  }

  /** Writing `n` followed by a unit and parsing it back gives `n` units after
      `now`. */
  lemma {:induction false} TimeRoundTrip(now: int, n: nat, u: char)
    requires u in "mhdMHD"
    ensures TimeConverter(now, DigitsOf(n) + [u]) == At(now + n * UnitMinutes(Lower(u)))
  {
    var v := DigitsOf(n) + [u];
    assert v[..|v| - 1] == DigitsOf(n);
    DigitsRoundTrip(n);
  }

  // ----- get_data_and_name --------------------------------------------------

  /** Index of the first whitespace character, or the length. */
  function FirstSpace(s: string): (k: nat)
    ensures k <= |s| && (k < |s| ==> IsSpace(s[k]))
    decreases |s|
  {
    if s == [] then 0
    else if IsSpace(s[0]) then 0
    else 1 + FirstSpace(s[1..])
  }

  /** No whitespace comes before the first. */
  lemma {:induction false} FirstSpaceWord(s: string)
    ensures forall i :: 0 <= i < FirstSpace(s) ==> !IsSpace(s[i])
    decreases |s|
  {
    if s != [] && !IsSpace(s[0]) {
      FirstSpaceWord(s[1..]);
      assert forall i :: 1 <= i < |s| ==> s[i] == s[1..][i - 1];
    }
  }

  /** `s.split(None, 1)` when it yields two parts: the first word and the
      rest, leading whitespace of the rest removed. */
  function SplitFirstWord(s: string): (r: Option<(string, string)>)
    ensures r.Some? ==> r.value.0 != [] && r.value.1 != [] && !IsSpace(r.value.1[0])
  {
    var t := TrimLeft(s);
    var k := FirstSpace(t);
    var rest := TrimLeft(t[k..]);
    if k == |t| || rest == [] then None else Some((t[..k], rest))
  }

  /** What the replied-to message carries. */
  datatype Replied = Replied(sticker: bool, videoNote: bool, text: Option<string>, caption: Option<string>)

  /** A note: its data (None when there is none to store) and its name; or the
      exception raised: IndexError when the command has no argument,
      AttributeError when a text is read from a message that has none. */
  datatype NoteResult = Note(data: Option<string>, name: string) | IndexError | AttributeError

  /** The argument of the command: `body.split(None, 1)[1].strip()`, None
      when the body has fewer than two words (an IndexError). */
  function NoteArgument(body: string): (r: Option<string>)
    ensures r.Some? ==> r.value != [] && !IsSpace(r.value[0]) && !IsSpace(r.value[|r.value| - 1])
  {
    match SplitFirstWord(body)
    case None => None
    case Some((_, rest)) =>
      assert TrimLeft(rest) == rest;
      TrimRightKeeps(rest);
      Some(Strip(rest))
  }

  /** `arg.split(" ", 1)`: the name, and what follows its first space. */
  function SplitName(arg: string): (r: (string, Option<string>))
    requires arg != [] && !IsSpace(arg[0])
    ensures r.0 != [] && ' ' !in r.0 && !IsSpace(r.0[0])
    ensures r.1.None? ==> r.0 == arg
    ensures r.1.Some? ==> arg == r.0 + " " + r.1.value
  {
    if ' ' in arg then
      var k := IndexOf(arg, ' ');
      assert k != 0;
      assert arg == arg[..k] + " " + arg[k + 1..];
      (arg[..k], Some(arg[k + 1..]))
    else (arg, None)
  }

  /** The data of a one-word note, read from the replied-to message. A
      command that only repeats itself, `/command name`, gives the data
      "error" when sent as text and no data when sent as a caption. */
  function ReplyData(replied: Option<Replied>, text: Option<string>, isReply: bool,
                     command: string, name: string): (r: NoteResult)
    ensures r.Note? ==> r.name == name
    ensures r.AttributeError? <==> replied.None?
    ensures && replied.Some? && !replied.value.sticker && !replied.value.videoNote
            && Truthy(replied.value.text) && !isReply
            && replied.value.text.value == "/" + command + " " + name ==>
              r == Note(if Truthy(text) then Some("error") else None, name)
    ensures && replied.Some? && !replied.value.sticker && !replied.value.videoNote
            && Truthy(replied.value.text)
            && (isReply || replied.value.text.value != "/" + command + " " + name) ==>
              r == Note(replied.value.text, name)
  {
    if replied.Some? && (replied.value.sticker || replied.value.videoNote) then Note(None, name)
    else if replied.Some? && !Truthy(replied.value.text) && !Truthy(replied.value.caption) then Note(None, name)
    else if replied.None? then AttributeError
    else
      var data := if Truthy(replied.value.text) then replied.value.text.value else replied.value.caption.value;
      var echo := "/" + command + " " + name;
      if !isReply && Truthy(text) && echo == data then Note(Some("error"), name)
      else if !isReply && !Truthy(text) && echo == data then Note(None, name)
      else Note(Some(data), name)
  }

  /** `get_data_and_name`. `text` and `caption` are the command message's
      text and caption, `isReply` whether it is a reply, `command` its first
      command token. */
  function GetDataAndName(replied: Option<Replied>, text: Option<string>, caption: Option<string>,
                          isReply: bool, command: string): (r: NoteResult)
    ensures r.Note? ==> r.name != [] && ' ' !in r.name && !IsSpace(r.name[0])
    ensures r.Note? && replied.Some? && (replied.value.sticker || replied.value.videoNote) ==> r.data.None?
  {
    if !Truthy(text) && caption.None? then AttributeError
    else
      var body := if Truthy(text) then text.value else caption.value;
      match NoteArgument(body)
      case None => IndexError
      case Some(arg) =>
        var split := SplitName(arg);
        var mute := replied.Some? && (replied.value.sticker || replied.value.videoNote);
        match split.1
        case Some(rest) => Note(if mute then None else Some(Strip(rest)), split.0)
        case None => ReplyData(replied, text, isReply, command, split.0)
  }

  predicate NoSpace(s: string) {
    forall i :: 0 <= i < |s| ==> !IsSpace(s[i])
  }

  /** A command `cmd name data`, all three non-empty, the first two single
      words and `data` without surrounding whitespace, is read back as the
      note `name` with data `data`. */
  lemma {:induction false} NoteRoundTrip(cmd: string, name: string, data: string, replied: Option<Replied>, isReply: bool)
    requires cmd != [] && NoSpace(cmd) && name != [] && NoSpace(name)
    requires data != [] && !IsSpace(data[0]) && !IsSpace(data[|data| - 1])
    requires replied.None? || (!replied.value.sticker && !replied.value.videoNote)
    ensures GetDataAndName(replied, Some(cmd + " " + name + " " + data), None, isReply, cmd)
            == Note(Some(data), name)
  {
    var rest := name + " " + data;
    assert rest[0] == name[0] && rest[|rest| - 1] == data[|data| - 1];
    var body := cmd + " " + rest;
    assert body == cmd + " " + name + " " + data;
    ArgumentAfterCommand(cmd, rest);
    NameThenData(name, data);
    StripUntouched(data);
    NoteFromParts(replied, body, isReply, cmd, rest, name, data);
  }

  /** The note read from a text whose argument splits into `name` and `data`. */
  lemma {:induction false} NoteFromParts(replied: Option<Replied>, body: string, isReply: bool, cmd: string,
                      arg: string, name: string, data: string)
    requires body != [] && NoteArgument(body) == Some(arg)
    requires SplitName(arg) == (name, Some(data)) && Strip(data) == data
    requires replied.None? || (!replied.value.sticker && !replied.value.videoNote)
    ensures GetDataAndName(replied, Some(body), None, isReply, cmd) == Note(Some(data), name)
  {
  }

  /** A one-word note `cmd name` sent as a reply stores the text of the
      replied-to message, and without a replied-to message reading its text
      raises. */
  lemma {:induction false} NoteFromReply(cmd: string, name: string, replied: Option<Replied>)
    requires cmd != [] && NoSpace(cmd) && name != [] && NoSpace(name)
    ensures replied.None? ==>
              GetDataAndName(replied, Some(cmd + " " + name), None, true, cmd) == AttributeError
    ensures replied.Some? && !replied.value.sticker && !replied.value.videoNote && Truthy(replied.value.text) ==>
              GetDataAndName(replied, Some(cmd + " " + name), None, true, cmd) == Note(replied.value.text, name)
  {
    ArgumentAfterCommand(cmd, name);
    assert ' ' !in name by {
      forall i | 0 <= i < |name| ensures name[i] != ' ' {
        assert !IsSpace(name[i]);
      }
    }
    OneWordNote(replied, cmd + " " + name, true, cmd, name);
  }

  /** A note whose argument is a single word takes its data from the
      replied-to message. */
  lemma {:induction false} OneWordNote(replied: Option<Replied>, body: string, isReply: bool, cmd: string, name: string)
    requires body != [] && NoteArgument(body) == Some(name) && ' ' !in name
    ensures GetDataAndName(replied, Some(body), None, isReply, cmd) == ReplyData(replied, Some(body), isReply, cmd, name)
  {
    var split := SplitName(name);
    assert split.1.None?;
    assert Truthy(Some(body));
  }

  /** The argument of `cmd rest` is `rest` when `rest` has no whitespace at
      either end. */
  lemma {:induction false} ArgumentAfterCommand(cmd: string, rest: string)
    requires cmd != [] && NoSpace(cmd)
    requires rest != [] && !IsSpace(rest[0]) && !IsSpace(rest[|rest| - 1])
    ensures NoteArgument(cmd + " " + rest) == Some(rest)
  {
    SplitCommandWord(cmd, rest);
    StripUntouched(rest);
  }

  /** The command word is split off a text `cmd rest`. */
  lemma {:induction false} SplitCommandWord(cmd: string, rest: string)
    requires cmd != [] && NoSpace(cmd) && rest != [] && !IsSpace(rest[0])
    ensures SplitFirstWord(cmd + " " + rest) == Some((cmd, rest))
  {
    var body := cmd + " " + rest;
    CommandWordEnd(cmd, rest);
    assert TrimLeft(body) == body by {
      assert body[0] == cmd[0];
    }
    assert TrimLeft(body[|cmd|..]) == rest by {
      assert (" " + rest)[1..] == rest;
    }
    SplitAtFirstSpace(body, |cmd|, rest);
  }

  /** In `cmd rest` the first word ends at the space after `cmd`. */
  lemma {:induction false} CommandWordEnd(cmd: string, rest: string)
    requires NoSpace(cmd)
    ensures FirstSpace(cmd + " " + rest) == |cmd|
    ensures (cmd + " " + rest)[..|cmd|] == cmd
    ensures (cmd + " " + rest)[|cmd|..] == " " + rest
  {
    var body := cmd + " " + rest;
    assert forall i :: 0 <= i < |cmd| ==> body[i] == cmd[i];
    FirstSpaceAt(body, |cmd|);
  }

  /** Where the first word of a text without leading whitespace ends. */
  lemma {:induction false} SplitAtFirstSpace(body: string, k: nat, rest: string)
    requires TrimLeft(body) == body && FirstSpace(body) == k && k < |body|
    requires TrimLeft(body[k..]) == rest && rest != []
    ensures SplitFirstWord(body) == Some((body[..k], rest))
  {
  }

  /** `name data` splits at the space after `name`. */
  lemma {:induction false} NameThenData(name: string, data: string)
    requires name != [] && NoSpace(name)
    ensures SplitName(name + " " + data) == (name, Some(data))
  {
    var rest := name + " " + data;
    assert rest[|name|] == ' ';
    assert ' ' !in name by {
      forall i | 0 <= i < |name| ensures name[i] != ' ' {
        assert !IsSpace(name[i]);
      }
    }
    assert rest[..|name|] == name;
  }

  lemma {:induction false} FirstSpaceAt(s: string, k: nat)
    requires k < |s| && IsSpace(s[k]) && forall i :: 0 <= i < k ==> !IsSpace(s[i])
    ensures FirstSpace(s) == k
  {
    FirstSpaceWord(s);
  }
}
