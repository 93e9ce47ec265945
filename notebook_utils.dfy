/**
 * The notebook helpers for bracket-annotated responses: the balanced-bracket check that
 * repeatedly deletes innermost bracket pairs, the highlighting that turns brackets into
 * <mark> tags, bracket removal, and the bracket-blind text comparison.
 */
module NotebookUtils {
  import opened Wrappers
  import opened Text

  predicate IsBracket(c: char) {
    c == '[' || c == ']'
  }

  predicate NoBrackets(s: string) {
    '[' !in s && ']' !in s
  }

  // ---- a reference definition of properly closed brackets ----

  /**
   * Reading s with d brackets open: no "]" ever closes more brackets than are open,
   * and every bracket is closed at the end.
   */
  predicate Bal(s: string, d: nat)
    decreases |s|
  {
    if s == [] then d == 0
    else if s[0] == '[' then Bal(s[1..], d + 1)
    else if s[0] == ']' then d > 0 && Bal(s[1..], d - 1)
    else Bal(s[1..], d)
  }

  /** Every square bracket expression, possibly nested, is closed. */
  predicate Balanced(s: string) {
    Bal(s, 0)
  }

  /** Number of "]" in s. */
  function Closers(s: string): nat
    decreases |s|
  {
    if s == [] then 0 else (if s[0] == ']' then 1 else 0) + Closers(s[1..])
  }

  /** Text without brackets is balanced exactly at depth 0. */
  lemma {:induction false} BalNoBrackets(s: string, d: nat)
    requires NoBrackets(s)
    ensures Bal(s, d) <==> d == 0
    decreases |s|
  {
    if s != [] {
      assert s[0] in s;
      BalNoBrackets(s[1..], d);
    }
  }

  /** A run of non-brackets in front does not change the balance. */
  lemma {:induction false} BalSkip(w: string, t: string, d: nat)
    requires NoBrackets(w)
    ensures Bal(w + t, d) == Bal(t, d)
    decreases |w|
  {
    if w != [] {
      assert w[0] in w;
      assert (w + t)[0] == w[0] && (w + t)[1..] == w[1..] + t;
      BalSkip(w[1..], t, d);
    } else {
      assert w + t == t;
    }
  }

  // ---- one re.sub(r"\[[^][]*\]", "", s) pass ----

  /** Length of the run of non-bracket characters at the start of s. */
  function PlainRun(s: string): (n: nat)
    ensures n <= |s| && NoBrackets(s[..n]) && (n < |s| ==> IsBracket(s[n]))
    decreases |s|
  {
    if s != [] && !IsBracket(s[0]) then
      var n := 1 + PlainRun(s[1..]);
      assert s[..n] == [s[0]] + s[1..][..n - 1];
      n
    else 0
  }

  /**
   * An unnested bracket expression starts s: "[" and then, after non-brackets, "]".
   * The greedy [^][]* stops at the first bracket, so the pattern matches at the start
   * exactly when that bracket is a "]".
   */
  predicate UnnestedAtStart(s: string) {
    s != [] && s[0] == '[' && 1 + PlainRun(s[1..]) < |s| && s[1 + PlainRun(s[1..])] == ']'
  }

  /**
   * One substitution pass: every unnested bracket expression found scanning left to right
   * is deleted. A pass either leaves the string as it is or makes it strictly shorter.
   */
  function RemoveUnnested(s: string): (r: string)
    ensures |r| <= |s| && (|r| == |s| ==> r == s)
    decreases |s|
  {
    if s == [] then []
    else if UnnestedAtStart(s) then RemoveUnnested(s[2 + PlainRun(s[1..])..])
    else [s[0]] + RemoveUnnested(s[1..])
  }

  /** A pass keeps the balance at every depth. */
  lemma {:induction false} RemoveUnnestedBal(s: string, d: nat)
    ensures Bal(RemoveUnnested(s), d) == Bal(s, d)
    decreases |s|
  {
    if s == [] {
    } else if UnnestedAtStart(s) {
      UnnestedBal(s, d);
      RemoveUnnestedBal(s[2 + PlainRun(s[1..])..], d);
    } else {
      var t := s[1..];
      var e := if s[0] == '[' then d + 1 else if s[0] == ']' && d > 0 then d - 1 else d;
      RemoveUnnestedBal(t, e);
      KeptBal(s, d, RemoveUnnested(t));
    }
  }

  /** Deleting an unnested bracket expression at the start keeps the balance. */
  lemma UnnestedBal(s: string, d: nat)
    requires UnnestedAtStart(s)
    ensures Bal(s, d) == Bal(s[2 + PlainRun(s[1..])..], d)
  {
    var n := PlainRun(s[1..]);
    var rest := s[1 + n..];
    assert Bal(s, d) == Bal(s[1..], d + 1);
    assert s[1..] == s[1..][..n] + rest;
    BalSkip(s[1..][..n], rest, d + 1);
    assert rest[0] == ']' && rest[1..] == s[2 + n..];
    assert Bal(rest, d + 1) == Bal(rest[1..], d);
  }

  /** Keeping the first character in front of a pass over the rest. */
  lemma KeptBal(s: string, d: nat, rest: string)
    requires s != []
    requires Bal(rest, if s[0] == '[' then d + 1 else if s[0] == ']' && d > 0 then d - 1 else d)
         == Bal(s[1..], if s[0] == '[' then d + 1 else if s[0] == ']' && d > 0 then d - 1 else d)
    ensures Bal([s[0]] + rest, d) == Bal(s, d)
  {
    var r := [s[0]] + rest;
    assert r[0] == s[0] && r[1..] == rest;
  }

  /**
   * When a pass changes nothing, every "]" comes before every "[", so the text is balanced
   * at depth d exactly when it holds d closing and no opening brackets.
   */
  lemma {:induction false} FixpointBal(s: string, d: nat)
    requires RemoveUnnested(s) == s
    ensures Bal(s, d) <==> Closers(s) == d && '[' !in s
    decreases |s|
  {
    if s != [] {
      var t := s[1..];
      KeptFixpoint(s);
      if s[0] == '[' {
        FixpointBal(t, d + 1);
        FixOpen(s, d);
      } else {
        var e := if s[0] == ']' && d > 0 then d - 1 else d;
        FixpointBal(t, e);
        FixOther(s, d, e);
      }
    }
  }

  /** A fixpoint opening with "[" is unbalanced: what follows it holds another "[" or no "]". */
  lemma FixOpen(s: string, d: nat)
    requires s != [] && s[0] == '[' && !UnnestedAtStart(s)
    requires Bal(s[1..], d + 1) <==> Closers(s[1..]) == d + 1 && '[' !in s[1..]
    ensures !Bal(s, d) && '[' in s
  {
    var t := s[1..];
    BalCons(s[0], t, d);
    assert s == [s[0]] + t;
    var n := PlainRun(t);
    if n < |t| {
      assert t[n] == '[';
      assert '[' in t;
    } else {
      assert t[..n] == t;
      ClosersNone(t);
    }
  }

  /** A fixpoint opening with anything but "[": one step of the balance and of the count. */
  lemma FixOther(s: string, d: nat, e: nat)
    requires s != [] && s[0] != '[' && e == (if s[0] == ']' && d > 0 then d - 1 else d)
    requires Bal(s[1..], e) <==> Closers(s[1..]) == e && '[' !in s[1..]
    ensures Bal(s, d) <==> Closers(s) == d && '[' !in s
  {
    var t := s[1..];
    BalCons(s[0], t, d);
    assert s == [s[0]] + t;
    assert '[' in s <==> '[' in t;
    assert Closers(s) == (if s[0] == ']' then 1 else 0) + Closers(t);
  }

  /** A string a pass leaves unchanged does not start with an unnested expression, and neither does a pass change its tail. */
  lemma KeptFixpoint(s: string)
    requires s != [] && RemoveUnnested(s) == s
    ensures !UnnestedAtStart(s) && RemoveUnnested(s[1..]) == s[1..]
  {
    assert !UnnestedAtStart(s);
    var r := [s[0]] + RemoveUnnested(s[1..]);
    assert RemoveUnnested(s) == r;
    assert r[1..] == RemoveUnnested(s[1..]);
  }

  lemma {:induction false} ClosersNone(s: string)
    requires ']' !in s
    ensures Closers(s) == 0
    decreases |s|
  {
    if s != [] {
      ClosersNone(s[1..]);
    }
  }

  // ---- has_closed_brackets ----

  /**
   * has_closed_brackets: text without brackets is closed at once; otherwise unnested
   * bracket expressions are deleted until a pass changes nothing, and the text is closed
   * when no bracket is left. The answer is the balanced-nesting check.
   */
  method HasClosedBrackets(text: string) returns (closed: bool)
    ensures closed == Balanced(text)
  {
    if '[' !in text && ']' !in text {
      BalNoBrackets(text, 0);
      return true;
    }
    var prevStr := text;
    var newStr := RemoveUnnested(text);
    RemoveUnnestedBal(text, 0);
    while prevStr != newStr
      invariant newStr == RemoveUnnested(prevStr)
      invariant Bal(newStr, 0) == Balanced(text)
      decreases |prevStr|
    {
      prevStr := newStr;
      newStr := RemoveUnnested(prevStr);
      RemoveUnnestedBal(prevStr, 0);
    }
    FixpointBal(newStr, 0);
    if Closers(newStr) == 0 {
      ClosersZero(newStr);
    } else {
      ClosersSome(newStr);
    }
    return '[' !in newStr && ']' !in newStr;
  }

  lemma {:induction false} ClosersZero(s: string)
    requires Closers(s) == 0
    ensures ']' !in s
    decreases |s|
  {
    if s != [] {
      ClosersZero(s[1..]);
      assert s == [s[0]] + s[1..];
    }
  }

  lemma {:induction false} ClosersSome(s: string)
    requires Closers(s) > 0
    ensures ']' in s
    decreases |s|
  {
    if s[0] != ']' {
      ClosersSome(s[1..]);
      assert s[1..][IndexOfClose(s[1..])] == s[1 + IndexOfClose(s[1..])];
    }
  }

  function IndexOfClose(s: string): (i: nat)
    requires ']' in s
    ensures i < |s| && s[i] == ']'
  {
    IndexOf(s, ']')
  }

  /** Bal read by position: the scan from index i of s with d brackets open. */
  predicate BalFrom(s: string, i: nat, d: nat)
    requires i <= |s|
    decreases |s| - i
  {
    if i == |s| then d == 0
    else if s[i] == '[' then BalFrom(s, i + 1, d + 1)
    else if s[i] == ']' then d > 0 && BalFrom(s, i + 1, d - 1)
    else BalFrom(s, i + 1, d)
  }

  /** The scan from index i is the balance of the suffix from i. */
  lemma {:induction false} BalFromSuffix(s: string, i: nat, d: nat)
    requires i <= |s|
    ensures BalFrom(s, i, d) == Bal(s[i..], d)
    decreases |s| - i
  {
    if i < |s| {
      BalFromSuffix(s, i + 1, if s[i] == '[' then d + 1 else if s[i] == ']' && d > 0 then d - 1 else d);
      assert s[i..][0] == s[i] && s[i..][1..] == s[i + 1..];
    }
  }

  /** "[hello] [wo[rl]d]!" is closed. */
  lemma ClosedExample()
    ensures Balanced("[hello] [wo[rl]d]!")
  {
    var s := "[hello] [wo[rl]d]!";
    ClosedExampleScan();
    BalFromSuffix(s, 0, 0);
    assert s[0..] == s;
  }

  /** The scan of "[hello] [wo[rl]d]!", position by position from the end. */
  lemma ClosedExampleScan()
    ensures BalFrom("[hello] [wo[rl]d]!", 0, 0)
  {
    var s := "[hello] [wo[rl]d]!";
    ClosedExampleTail();
    assert BalFrom(s, 8, 0);
    assert BalFrom(s, 7, 0);
    assert BalFrom(s, 6, 1);
    assert BalFrom(s, 5, 1);
    assert BalFrom(s, 4, 1);
    assert BalFrom(s, 3, 1);
    assert BalFrom(s, 2, 1);
    assert BalFrom(s, 1, 1);
    assert BalFrom(s, 0, 0);
  }

  lemma ClosedExampleTail()
    ensures BalFrom("[hello] [wo[rl]d]!", 9, 1)
  {
    var s := "[hello] [wo[rl]d]!";
    assert BalFrom(s, 18, 0);
    assert BalFrom(s, 17, 0);
    assert BalFrom(s, 16, 1);
    assert BalFrom(s, 15, 1);
    assert BalFrom(s, 14, 2);
    assert BalFrom(s, 13, 2);
    assert BalFrom(s, 12, 2);
    assert BalFrom(s, 11, 1);
    assert BalFrom(s, 10, 1);
    assert BalFrom(s, 9, 1);
  }

  /** "[a" leaves a bracket open and "a]" closes one that was never opened. */
  lemma UnclosedExamples()
    ensures !Balanced("[a") && !Balanced("a]")
  {
    assert "[a" == "[" + "a";
    BalCons('[', "a", 0);
    assert "a" == "a" + "";
    BalCons('a', "", 1);
    assert "a]" == "a" + "]";
    BalCons('a', "]", 0);
    assert "]" == "]" + "";
    BalCons(']', "", 0);
  }

  /** Reading one character. */
  lemma BalCons(c: char, t: string, d: nat)
    ensures Bal([c] + t, d)
         == if c == '[' then Bal(t, d + 1) else if c == ']' then d > 0 && Bal(t, d - 1) else Bal(t, d)
  {
    assert ([c] + t)[0] == c && ([c] + t)[1..] == t;
  }

  // ---- highlight_bracketed_text ----

  const UnclosedMessage := "Response contains an improperly closed bracket"

  /** Each "[" as an opening and each "]" as a closing mark tag, other characters kept. */
  function Marked(s: string): (r: string)
    ensures NoBrackets(r)
    decreases |s|
  {
    if s == [] then []
    else
      var head := if s[0] == '[' then "<mark>" else if s[0] == ']' then "</mark>" else [s[0]];
      var r := head + Marked(s[1..]);
      assert forall i :: 0 <= i < |head| ==> r[i] == head[i];
      r
  }

  /** The two replace calls, "[" first and then "]", mark every bracket. */
  lemma {:induction false} ReplacesMark(s: string)
    ensures ReplaceChar(ReplaceChar(s, '[', "<mark>"), ']', "</mark>") == Marked(s)
    decreases |s|
  {
    if s != [] {
      var head := if s[0] == '[' then "<mark>" else [s[0]];
      var rest := ReplaceChar(s[1..], '[', "<mark>");
      assert ReplaceChar(s, '[', "<mark>") == head + rest;
      ReplaceCharAppend(head, rest, ']', "</mark>");
      ReplacesMark(s[1..]);
      if s[0] == '[' {
        ReplaceCharAbsent("<mark>", ']', "</mark>");
      } else {
        assert head[1..] == [];
      }
    }
  }

  /**
   * highlight_bracketed_text with wrap=False: ValueError unless the brackets are closed,
   * and otherwise the text with "[" replaced by "<mark>" and then "]" by "</mark>".
   */
  method HighlightBracketedText(text: string) returns (r: Result<string, string>)
    ensures !Balanced(text) ==> r == Err(UnclosedMessage)
    ensures Balanced(text) ==> r == Ok(Marked(text))
  {
    var closed := HasClosedBrackets(text);
    if !closed {
      return Err(UnclosedMessage);
    }
    var outputText := ReplaceChar(text, '[', "<mark>");
    outputText := ReplaceChar(outputText, ']', "</mark>");
    ReplacesMark(text);
    return Ok(outputText);
  }

  // ---- remove_brackets and texts_differ ----

  /** The characters of s that are not brackets, in order. */
  function Unbracketed(s: string): (r: string)
    ensures NoBrackets(r) && |r| <= |s|
    decreases |s|
  {
    if s == [] then []
    else if IsBracket(s[0]) then Unbracketed(s[1..])
    else [s[0]] + Unbracketed(s[1..])
  }

  /** remove_brackets */
  function RemoveBrackets(text: string): string {
    ReplaceChar(ReplaceChar(text, '[', ""), ']', "")
  }

  /** remove_brackets deletes exactly the brackets: its output is the input's other characters in order. */
  lemma {:induction false} RemoveBracketsSpec(s: string)
    ensures RemoveBrackets(s) == Unbracketed(s)
    decreases |s|
  {
    if s != [] {
      var head := if s[0] == '[' then "" else [s[0]];
      var rest := ReplaceChar(s[1..], '[', "");
      assert ReplaceChar(s, '[', "") == head + rest;
      ReplaceCharAppend(head, rest, ']', "");
      RemoveBracketsSpec(s[1..]);
      if s[0] != '[' {
        assert head[1..] == [];
      }
    }
  }

  /** Text without brackets is its own bracket-free form. */
  lemma {:induction false} UnbracketedPlain(s: string)
    requires NoBrackets(s)
    ensures Unbracketed(s) == s
    decreases |s|
  {
    if s != [] {
      assert s[0] in s;
      UnbracketedPlain(s[1..]);
      assert s == [s[0]] + s[1..];
    }
  }

  /** remove_brackets leaves no bracket, and a second application changes nothing. */
  lemma RemoveBracketsIdempotent(s: string)
    ensures NoBrackets(RemoveBrackets(s))
    ensures RemoveBrackets(RemoveBrackets(s)) == RemoveBrackets(s)
  {
    RemoveBracketsSpec(s);
    RemoveBracketsSpec(Unbracketed(s));
    UnbracketedPlain(Unbracketed(s));
  }

  /** texts_differ */
  predicate TextsDiffer(texta: string, textb: string) {
    RemoveBrackets(texta) != RemoveBrackets(textb)
  }

  /**
   * texts_differ holds exactly when the texts differ outside their brackets; so it is
   * symmetric, and a text never differs from itself or from its bracket-free form.
   */
  lemma TextsDifferSpec(a: string, b: string)
    ensures TextsDiffer(a, b) <==> Unbracketed(a) != Unbracketed(b)
    ensures TextsDiffer(a, b) == TextsDiffer(b, a)
    ensures !TextsDiffer(a, a) && !TextsDiffer(a, RemoveBrackets(a))
  {
    RemoveBracketsSpec(a);
    RemoveBracketsSpec(b);
    RemoveBracketsIdempotent(a);
  }
}
