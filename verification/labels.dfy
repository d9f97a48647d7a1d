/** The text predicates behind the three XPath queries of apply.js (lines
    55-58): `contains(normalize-space(.), word)` as defined in section 4.2 of
    XPath 1.0, case-sensitive.  A button is represented by its string-value. */
module Labels {

  /** XPath 1.0 whitespace: space, tab, carriage return, line feed. */
  predicate IsXPathSpace(c: char) {
    c == ' ' || c == '\t' || c == '\r' || c == '\n'
  }

  predicate SpaceFree(w: string) {
    forall i :: 0 <= i < |w| ==> !IsXPathSpace(w[i])
  }

  /** The single space owed before the next character, if any. */
  function Lead(pending: bool): string {
    if pending then " " else ""
  }

  /** One left-to-right pass of normalize-space: `started` says a non-space
      character has already been emitted, `pending` that whitespace was seen
      since then and a single space is owed before the next character. */
  function Collapse(s: string, started: bool, pending: bool): string
    decreases |s|
  {
    if |s| == 0 then ""
    else if IsXPathSpace(s[0]) then Collapse(s[1..], started, started)
    else Lead(pending) + [s[0]] + Collapse(s[1..], true, false)
  }

  /** The pass emits no whitespace but single spaces, each between two
      non-space characters, and a space first only when one was owed. */
  lemma {:induction false} CollapseShape(s: string, started: bool, pending: bool)
    requires pending ==> started
    ensures var r := Collapse(s, started, pending);
      && (forall i :: 0 <= i < |r| ==> r[i] == ' ' || !IsXPathSpace(r[i]))
      && (|r| > 0 ==> r[|r| - 1] != ' ')
      && (|r| > 0 && r[0] == ' ' ==> started)
      && (|r| > 0 && pending ==> r[0] == ' ')
      && (forall i :: 0 < i < |r| && r[i] == ' ' ==> r[i - 1] != ' ')
    decreases |s|
  {
    if |s| > 0 {
      if IsXPathSpace(s[0]) {
        CollapseShape(s[1..], started, started);
      } else {
        CollapseShape(s[1..], true, false);
      }
    }
  }

  /** The non-whitespace characters of `s`, in order. */
  function Squeeze(s: string): string
    decreases |s|
  {
    if |s| == 0 then ""
    else if IsXPathSpace(s[0]) then Squeeze(s[1..])
    else [s[0]] + Squeeze(s[1..])
  }

  lemma {:induction false} SqueezeAppend(a: string, b: string)
    ensures Squeeze(a + b) == Squeeze(a) + Squeeze(b)
    decreases |a|
  {
    if |a| > 0 {
      assert (a + b)[1..] == a[1..] + b;
      SqueezeAppend(a[1..], b);
    } else {
      assert a + b == b;
    }
  }

  /** The pass keeps every non-whitespace character, in order. */
  lemma {:induction false} CollapseKeepsCharacters(s: string, started: bool, pending: bool)
    requires pending ==> started
    ensures Squeeze(Collapse(s, started, pending)) == Squeeze(s)
    decreases |s|
  {
    if |s| > 0 {
      if IsXPathSpace(s[0]) {
        CollapseKeepsCharacters(s[1..], started, started);
      } else {
        var t := Collapse(s[1..], true, false);
        CollapseKeepsCharacters(s[1..], true, false);
        SqueezeAppend(Lead(pending) + [s[0]], t);
        SqueezeAppend(Lead(pending), [s[0]]);
        assert Squeeze(Lead(pending)) == "";
        assert Squeeze([s[0]]) == [s[0]];
      }
    }
  }

  /** Text without whitespace passes through the pass unchanged. */
  lemma CollapseSpaceFree(s: string)
    ensures SpaceFree(s) ==> Collapse(s, false, false) == s
  {
    if SpaceFree(s) && |s| > 0 {
      assert !IsXPathSpace(s[0]);
      assert SpaceFree(s[1..]);
      CollapseKeepsWord(s[1..], "");
      assert s[1..] + "" == s[1..];
      assert [s[0]] + s[1..] == s;
    }
  }

  /** The word collected so far, if there is one. */
  function Finished(cur: string): seq<string> {
    if cur == "" then [] else [cur]
  }

  /** The maximal runs of non-whitespace characters of `s`, continuing the
      word `cur` already begun. */
  function WordsFrom(s: string, cur: string): seq<string>
    decreases |s|
  {
    if |s| == 0 then Finished(cur)
    else if IsXPathSpace(s[0]) then Finished(cur) + WordsFrom(s[1..], "")
    else WordsFrom(s[1..], cur + [s[0]])
  }

  /** The words of `s`: its maximal runs of non-whitespace characters. */
  function Words(s: string): seq<string> {
    WordsFrom(s, "")
  }

  lemma WordsFromCons(c: char, x: string, cur: string)
    ensures WordsFrom([c] + x, cur)
         == if IsXPathSpace(c) then Finished(cur) + WordsFrom(x, "") else WordsFrom(x, cur + [c])
  {
    assert ([c] + x)[1..] == x;
  }

  /** The inductive step of `CollapseKeepsWords` for a leading whitespace
      character, given the claim for the rest of the text. */
  lemma KeepsWordsAtSpace(s: string, started: bool, pending: bool, cur: string)
    requires |s| > 0 && IsXPathSpace(s[0])
    requires pending ==> started
    requires !started ==> cur == ""
    requires WordsFrom(Collapse(s[1..], started, started), cur) == WordsFrom(Lead(started) + s[1..], cur)
    ensures WordsFrom(Collapse(s, started, pending), cur) == WordsFrom(Lead(pending) + s, cur)
  {
    WordsFromCons(s[0], s[1..], cur);
    assert [s[0]] + s[1..] == s;
    if !started {
      assert Lead(pending) + s == s;
      assert Lead(started) + s[1..] == s[1..];
      assert Finished(cur) + WordsFrom(s[1..], "") == WordsFrom(s[1..], "");
    } else if !pending {
      assert Lead(started) + s[1..] == [' '] + s[1..];
      WordsFromCons(' ', s[1..], cur);
      assert Lead(pending) + s == s;
    } else {
      assert Lead(started) + s[1..] == [' '] + s[1..];
      WordsFromCons(' ', s[1..], cur);
      assert Lead(pending) + s == [' '] + s;
      WordsFromCons(' ', s, cur);
      WordsFromCons(s[0], s[1..], "");
      assert Finished("") + WordsFrom(s[1..], "") == WordsFrom(s[1..], "");
    }
  }

  /** The inductive step of `CollapseKeepsWords` for a leading non-space
      character that extends the word `cur`, no space being owed. */
  lemma KeepsWordsAtChar(s: string, started: bool, cur: string)
    requires |s| > 0 && !IsXPathSpace(s[0])
    requires WordsFrom(Collapse(s[1..], true, false), cur + [s[0]]) == WordsFrom(s[1..], cur + [s[0]])
    ensures WordsFrom(Collapse(s, started, false), cur) == WordsFrom(s, cur)
  {
    var t := Collapse(s[1..], true, false);
    assert Collapse(s, started, false) == [s[0]] + t;
    assert [s[0]] + s[1..] == s;
    WordsFromCons(s[0], t, cur);
    WordsFromCons(s[0], s[1..], cur);
  }

  /** The inductive step of `CollapseKeepsWords` for a leading non-space
      character after an owed space, which ends `cur` and begins a new word. */
  lemma KeepsWordsAfterSpace(s: string, cur: string)
    requires |s| > 0 && !IsXPathSpace(s[0])
    requires WordsFrom(Collapse(s[1..], true, false), [s[0]]) == WordsFrom(s[1..], [s[0]])
    ensures WordsFrom(Collapse(s, true, true), cur) == WordsFrom([' '] + s, cur)
  {
    var t := Collapse(s[1..], true, false);
    assert Collapse(s, true, true) == [' '] + ([s[0]] + t);
    WordsFromCons(' ', [s[0]] + t, cur);
    WordsFromCons(' ', s, cur);
    assert "" + [s[0]] == [s[0]];
    KeepsWordsAtChar(s, true, "");
  }

  /** The pass splits text into the same words, counting a space it still
      owes as whitespace seen. */
  lemma {:induction false} CollapseKeepsWords(s: string, started: bool, pending: bool, cur: string)
    requires pending ==> started
    requires !started ==> cur == ""
    ensures WordsFrom(Collapse(s, started, pending), cur) == WordsFrom(Lead(pending) + s, cur)
    decreases |s|
  {
    if |s| == 0 {
      assert Lead(pending) + s == Lead(pending);
      if pending {
        WordsFromCons(' ', "", cur);
      }
    } else if IsXPathSpace(s[0]) {
      CollapseKeepsWords(s[1..], started, started, cur);
      KeepsWordsAtSpace(s, started, pending, cur);
    } else if pending {
      CollapseKeepsWords(s[1..], true, false, [s[0]]);
      assert Lead(false) + s[1..] == s[1..];
      KeepsWordsAfterSpace(s, cur);
      assert Lead(pending) + s == [' '] + s;
    } else {
      CollapseKeepsWords(s[1..], true, false, cur + [s[0]]);
      assert Lead(false) + s[1..] == s[1..];
      KeepsWordsAtChar(s, started, cur);
      assert Lead(pending) + s == s;
    }
  }

  /** normalize-space(s): leading and trailing whitespace stripped and every
      run of whitespace replaced by one space, so the result is the words of
      `s` with a single space between neighbours; the other characters are
      kept in order, and text without whitespace is returned as it is. */
  function NormalizeSpace(s: string): (r: string)
    ensures forall i :: 0 <= i < |r| ==> r[i] == ' ' || !IsXPathSpace(r[i])
    ensures |r| > 0 ==> r[0] != ' ' && r[|r| - 1] != ' '
    ensures forall i :: 0 < i < |r| && r[i] == ' ' ==> r[i - 1] != ' '
    ensures Squeeze(r) == Squeeze(s)
    ensures SpaceFree(s) ==> r == s
    ensures Words(r) == Words(s)
  {
    CollapseShape(s, false, false);
    CollapseKeepsCharacters(s, false, false);
    CollapseKeepsWords(s, false, false, "");
    assert Lead(false) + s == s;
    CollapseSpaceFree(s);
    Collapse(s, false, false)
  }

  /** `w` occurs in `s` starting at position i. */
  predicate OccursAt(s: string, w: string, i: nat) {
    i + |w| <= |s| && s[i..i + |w|] == w
  }

  /** XPath contains(s, w). */
  predicate Contains(s: string, w: string) {
    exists i: nat :: i <= |s| && OccursAt(s, w, i)
  }

  /** Evaluates contains(s, w) by trying every start position in turn. */
  method FindWord(s: string, w: string) returns (found: bool)
    ensures found <==> Contains(s, w)
  {
    var i := 0;
    while i + |w| <= |s|
      invariant forall j: nat :: j < i ==> !OccursAt(s, w, j)
    {
      if s[i..i + |w|] == w {
        assert OccursAt(s, w, i);
        return true;
      }
      i := i + 1;
    }
    assert forall j: nat :: j >= i ==> !OccursAt(s, w, j);
    return false;
  }

  lemma ContainsInSuffix(a: string, b: string, w: string)
    requires Contains(b, w)
    ensures Contains(a + b, w)
  {
    var i: nat :| i <= |b| && OccursAt(b, w, i);
    assert i + |w| <= |b|;
    assert (a + b)[|a| + i..|a| + i + |w|] == b[i..i + |w|];
    assert OccursAt(a + b, w, |a| + i);
  }

  lemma ContainsPrefix(w: string, b: string)
    ensures Contains(w + b, w)
  {
    assert (w + b)[0..|w|] == w;
    assert OccursAt(w + b, w, 0);
  }

  /** A whitespace-free word passes through the pass unchanged. */
  lemma {:induction false} CollapseKeepsWord(u: string, rest: string)
    requires SpaceFree(u)
    ensures Collapse(u + rest, true, false) == u + Collapse(rest, true, false)
    decreases |u|
  {
    if |u| > 0 {
      assert (u + rest)[0] == u[0];
      assert (u + rest)[1..] == u[1..] + rest;
      CollapseKeepsWord(u[1..], rest);
      assert u == [u[0]] + u[1..];
    } else {
      assert u + rest == rest;
    }
  }

  /** A whitespace-free prefix of the pass's output was a prefix of its input. */
  lemma {:induction false} CollapsePrefixBack(x: string, u: string)
    requires SpaceFree(u)
    requires |u| <= |Collapse(x, true, false)|
    requires Collapse(x, true, false)[..|u|] == u
    ensures |u| <= |x| && x[..|u|] == u
    decreases |x|
  {
    if |u| > 0 {
      var r := Collapse(x, true, false);
      assert r[0] == u[0];
      assert !IsXPathSpace(u[0]);
      assert |x| > 0;
      CollapseShape(x[1..], true, true);
      assert !IsXPathSpace(x[0]);
      var t := Collapse(x[1..], true, false);
      assert r == [x[0]] + t;
      assert t[..|u| - 1] == u[1..];
      CollapsePrefixBack(x[1..], u[1..]);
      assert x[..|u|] == [x[0]] + x[1..][..|u| - 1];
    }
  }

  /** An occurrence past the first position is an occurrence in the tail. */
  lemma OccursInTail(s: string, w: string, i: nat)
    requires 0 < i && OccursAt(s, w, i)
    ensures OccursAt(s[1..], w, i - 1)
  {
  }

  /** A non-empty whitespace-free word cannot start at a whitespace character. */
  lemma WordStartsAtNonSpace(s: string, w: string, i: nat)
    requires SpaceFree(w) && |w| > 0 && OccursAt(s, w, i)
    ensures !IsXPathSpace(s[i])
  {
    assert s[i] == s[i..i + |w|][0];
  }

  /** The pass applied to a string that starts with the word emits the word
      right after any owed space, followed by the pass over the rest. */
  lemma CollapseAtWord(s: string, w: string, started: bool, pending: bool)
    requires SpaceFree(w) && |w| > 0 && OccursAt(s, w, 0)
    ensures Collapse(s, started, pending) == Lead(pending) + (w + Collapse(s[|w|..], true, false))
  {
    var rest := s[|w|..];
    assert s[..|w|] == w;
    assert s == w + rest;
    assert s[0] == w[0];
    WordStartsAtNonSpace(s, w, 0);
    assert s[1..] == w[1..] + rest;
    CollapseKeepsWord(w[1..], rest);
    var t := Collapse(s[1..], true, false);
    assert [s[0]] + t == w + Collapse(rest, true, false);
  }

  /** The pass applied to a string that starts with the word emits the word. */
  lemma SurvivesAtStart(s: string, w: string, started: bool, pending: bool)
    requires pending ==> started
    requires SpaceFree(w) && |w| > 0 && OccursAt(s, w, 0)
    ensures Contains(Collapse(s, started, pending), w)
  {
    var tail := Collapse(s[|w|..], true, false);
    CollapseAtWord(s, w, started, pending);
    ContainsPrefix(w, tail);
    ContainsInSuffix(Lead(pending), w + tail, w);
  }

  /** Collapsing whitespace never destroys an occurrence of a whitespace-free word. */
  lemma {:induction false} ContainsSurvives(s: string, w: string, started: bool, pending: bool)
    requires pending ==> started
    requires SpaceFree(w) && Contains(s, w)
    ensures Contains(Collapse(s, started, pending), w)
    decreases |s|
  {
    if |w| == 0 {
      assert OccursAt(Collapse(s, started, pending), w, 0);
    } else {
      var i: nat :| i <= |s| && OccursAt(s, w, i);
      WordStartsAtNonSpace(s, w, i);
      if i == 0 {
        SurvivesAtStart(s, w, started, pending);
      } else {
        OccursInTail(s, w, i);
        if IsXPathSpace(s[0]) {
          ContainsSurvives(s[1..], w, started, started);
        } else {
          ContainsSurvives(s[1..], w, true, false);
          ContainsInSuffix(Lead(pending) + [s[0]], Collapse(s[1..], true, false), w);
        }
      }
    }
  }

  /** An occurrence that starts right after the character `c` of the pass's
      output lies in the tail the pass produced after `c`. */
  lemma OccursAfterHead(pre: string, c: char, t: string, w: string, j: nat)
    requires j > |pre| && OccursAt(pre + [c] + t, w, j)
    ensures OccursAt(t, w, j - |pre| - 1)
  {
    var r := pre + [c] + t;
    assert t[j - |pre| - 1..j - |pre| - 1 + |w|] == r[j..j + |w|];
  }

  /** An occurrence that starts at the first emitted character of the pass
      was an occurrence at the start of the input. */
  lemma ReflectsAtStart(s: string, w: string, pending: bool)
    requires |s| > 0 && !IsXPathSpace(s[0])
    requires SpaceFree(w) && |w| > 0
    requires OccursAt(Lead(pending) + [s[0]] + Collapse(s[1..], true, false), w, |Lead(pending)|)
    ensures OccursAt(s, w, 0)
  {
    var pre := Lead(pending);
    var t := Collapse(s[1..], true, false);
    var r := pre + [s[0]] + t;
    var j := |pre|;
    assert r[j..j + |w|] == w;
    assert w[0] == s[0];
    assert t[..|w| - 1] == r[j + 1..j + |w|];
    assert r[j + 1..j + |w|] == w[1..];
    CollapsePrefixBack(s[1..], w[1..]);
    assert s[..|w|] == [s[0]] + s[1..][..|w| - 1];
  }

  /** An occurrence of a whitespace-free word after collapsing was already
      present before. */
  lemma {:induction false} ContainsReflects(s: string, w: string, started: bool, pending: bool)
    requires pending ==> started
    requires SpaceFree(w) && Contains(Collapse(s, started, pending), w)
    ensures Contains(s, w)
    decreases |s|
  {
    var r := Collapse(s, started, pending);
    if |w| == 0 {
      assert OccursAt(s, w, 0);
    } else if |s| > 0 {
      var j: nat :| j <= |r| && OccursAt(r, w, j);
      assert [s[0]] + s[1..] == s;
      if IsXPathSpace(s[0]) {
        ContainsReflects(s[1..], w, started, started);
        ContainsInSuffix([s[0]], s[1..], w);
      } else {
        var pre := Lead(pending);
        var t := Collapse(s[1..], true, false);
        assert r == pre + [s[0]] + t;
        WordStartsAtNonSpace(r, w, j);
        if j == |pre| {
          ReflectsAtStart(s, w, pending);
        } else {
          OccursAfterHead(pre, s[0], t, w, j);
          ContainsReflects(s[1..], w, true, false);
          ContainsInSuffix([s[0]], s[1..], w);
        }
      }
    }
  }

  /** For a whitespace-free word, matching against the normalised text is the
      same as matching against the raw text. */
  lemma NormalizeSpaceKeepsWords(s: string, w: string)
    requires SpaceFree(w)
    ensures Contains(NormalizeSpace(s), w) <==> Contains(s, w)
  {
    if Contains(s, w) {
      ContainsSurvives(s, w, false, false);
    }
    if Contains(NormalizeSpace(s), w) {
      ContainsReflects(s, w, false, false);
    }
  }

  /** The three button queries: VIEW_XPATH, APPLY_XPATH and CLOSE_XPATH. */
  datatype Label = View | Apply | Close

  /** The button text the label's XPath predicate accepts: the normalised
      text contains "View", "Apply", or one of "Close", "Cancel", "Back".
      The test is case-sensitive and is a substring test. */
  predicate Matches(text: string, kind: Label) {
    var n := NormalizeSpace(text);
    match kind
    case View => Contains(n, "View")
    case Apply => Contains(n, "Apply")
    case Close => Contains(n, "Close") || Contains(n, "Cancel") || Contains(n, "Back")
  }

  /** Evaluates the label's XPath predicate on one button's text. */
  method MatchesLabel(text: string, kind: Label) returns (b: bool)
    ensures b <==> Matches(text, kind)
  {
    var n := NormalizeSpace(text);
    match kind
    case View => b := FindWord(n, "View");
    case Apply => b := FindWord(n, "Apply");
    case Close =>
      var close := FindWord(n, "Close");
      var cancel := FindWord(n, "Cancel");
      var back := FindWord(n, "Back");
      b := close || cancel || back;
  }

  /** The same test made on the raw text, without normalize-space. */
  predicate MatchesRaw(text: string, kind: Label) {
    match kind
    case View => Contains(text, "View")
    case Apply => Contains(text, "Apply")
    case Close => Contains(text, "Close") || Contains(text, "Cancel") || Contains(text, "Back")
  }

  /** Since every kind word is free of whitespace, normalize-space does not
      change which buttons a query selects. */
  lemma MatchesIgnoresWhitespace(text: string, kind: Label)
    ensures Matches(text, kind) <==> MatchesRaw(text, kind)
  {
    assert SpaceFree("View") && SpaceFree("Apply");
    assert SpaceFree("Close") && SpaceFree("Cancel") && SpaceFree("Back");
    NormalizeSpaceKeepsWords(text, "View");
    NormalizeSpaceKeepsWords(text, "Apply");
    NormalizeSpaceKeepsWords(text, "Close");
    NormalizeSpaceKeepsWords(text, "Cancel");
    NormalizeSpaceKeepsWords(text, "Back");
  }

  /** Because the test is a case-sensitive substring test, a "Closed"
      button is taken for a Close button, while a "view" button is not taken
      for a View button. */
  lemma SubstringAndCaseSensitive()
    ensures Matches("Closed", Close)
    ensures !Matches("view", View)
  {
    ClosedIsClose();
    LowerViewIsNotView();
  }

  /** A whitespace-free text that begins with `w` contains `w` once
      normalised. */
  lemma SpaceFreePrefixMatches(s: string, w: string)
    requires SpaceFree(s) && |w| <= |s| && s[..|w|] == w
    ensures Contains(NormalizeSpace(s), w)
  {
    assert OccursAt(s, w, 0);
  }

  lemma ClosedIsClose()
    ensures Matches("Closed", Close)
  {
    var closed := "Closed";
    assert SpaceFree(closed);
    assert closed[..5] == "Close";
    SpaceFreePrefixMatches(closed, "Close");
  }

  lemma LowerViewIsNotView()
    ensures !Matches("view", View)
  {
    var view := "view";
    var n := NormalizeSpace(view);
    assert n == view by {
      assert SpaceFree(view);
    }
    assert !Contains(n, "View") by {
      assert view[0] != "View"[0];
      assert forall i: nat :: i <= |view| && OccursAt(view, "View", i) ==> i == 0 && view[0] == "View"[0];
    }
  }

  /** Positions, from `from` on, of the buttons the query selects, in
      document order. */
  function SelectFrom(buttons: seq<string>, kind: Label, from: nat): (r: seq<nat>)
    requires from <= |buttons|
    ensures forall k :: 0 <= k < |r| ==> from <= r[k] < |buttons| && Matches(buttons[r[k]], kind)
    ensures forall p :: from <= p < |buttons| && Matches(buttons[p], kind) ==> p in r
    ensures forall k, m :: 0 <= k < m < |r| ==> r[k] < r[m]
    decreases |buttons| - from
  {
    if from == |buttons| then []
    else if Matches(buttons[from], kind) then [from] + SelectFrom(buttons, kind, from + 1)
    else SelectFrom(buttons, kind, from + 1)
  }

  /** `page.$x(xpath)`: the buttons (by position) whose text the kind
      selects, in document order, each exactly once. */
  function Select(buttons: seq<string>, kind: Label): (r: seq<nat>)
    ensures forall k :: 0 <= k < |r| ==> r[k] < |buttons| && Matches(buttons[r[k]], kind)
    ensures forall p :: 0 <= p < |buttons| && Matches(buttons[p], kind) ==> p in r
    ensures forall k, m :: 0 <= k < m < |r| ==> r[k] < r[m]
  {
    SelectFrom(buttons, kind, 0)
  }

  /** The query finds something exactly when some button's text matches. */
  lemma SelectNonEmpty(buttons: seq<string>, kind: Label)
    ensures |Select(buttons, kind)| > 0 <==> exists p :: 0 <= p < |buttons| && Matches(buttons[p], kind)
  {
    var r := Select(buttons, kind);
    if |r| > 0 {
      assert Matches(buttons[r[0]], kind);
    }
  }
}
