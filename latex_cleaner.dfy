/** `clean_content`: four fixed rewrites that strip LaTeX artifacts from a
    model's answer. Each `re.sub` with a lazy group between two delimiters is
    one instance of `Unwrap`; the `\to` rewrite is a plain replace. */
module LatexCleaner {
  import opened Results
  import opened Strings

  /** Where the closing delimiter of a lazy `(.*?)` group lies in `t` (the
      text after the opener): its first occurrence, unless the group may not
      cross a line break (no DOTALL) and a `\n` comes first. */
  function CloseIndex(t: string, close: string, oneLine: bool): (r: Option<nat>)
    requires close != []
    ensures r.Some? ==> r.value + |close| <= |t| && t[r.value..r.value + |close|] == close
    ensures r.Some? ==> IndexOf(t, close) == r
    ensures r.Some? && oneLine ==> '\n' !in t[..r.value]
    ensures r.None? <==> IndexOf(t, close).None? || (oneLine && '\n' in t[..IndexOf(t, close).value])
  {
    match IndexOf(t, close)
    case None => None
    case Some(k) => if oneLine && '\n' in t[..k] then None else Some(k)
  }

  /** `re.sub(open (.*?) close, r'\1', s)`: scanning left to right, an opener
      with a reachable closer is replaced by the text between them and the
      scan resumes after the closer; any other character is kept. */
  function Unwrap(s: string, open: string, close: string, oneLine: bool): (r: string)
    requires open != [] && close != []
    ensures |r| <= |s|
    decreases |s|
  {
    if s == [] then []
    else if StartsWith(s, open) && CloseIndex(s[|open|..], close, oneLine).Some? then
      var t := s[|open|..];
      var k := CloseIndex(t, close, oneLine).value;
      t[..k] + Unwrap(t[k + |close|..], open, close, oneLine)
    else [s[0]] + Unwrap(s[1..], open, close, oneLine)
  }

  /** Text without the opener comes back unchanged. */
  lemma {:induction false} UnwrapKeeps(s: string, open: string, close: string, oneLine: bool)
    requires open != [] && close != []
    ensures !Contains(s, open) ==> Unwrap(s, open, close, oneLine) == s
    decreases |s|
  {
    if s != [] && !Contains(s, open) {
      UnwrapKeeps(s[1..], open, close, oneLine);
      assert s == [s[0]] + s[1..];
    }
  }

  /** `$$ ... $$`, across lines. */
  function UnwrapDisplayMath(s: string): (r: string)
    ensures !Contains(s, "$$") ==> r == s
  {
    UnwrapKeeps(s, "$$", "$$", false);
    Unwrap(s, "$$", "$$", false)
  }

  /** `\text{ ... }`, within one line. */
  function UnwrapText(s: string): (r: string)
    ensures !Contains(s, "\\text{") ==> r == s
  {
    UnwrapKeeps(s, "\\text{", "}", true);
    Unwrap(s, "\\text{", "}", true)
  }

  /** `\to` becomes `->`. */
  function Arrows(s: string): (r: string)
    ensures !Contains(s, "\\to") ==> r == s
  {
    ReplaceAll(s, "\\to", "->")
  }

  /** `\[ ... \]`, across lines. */
  function UnwrapBracketMath(s: string): (r: string)
    ensures !Contains(s, "\\[") ==> r == s
  {
    UnwrapKeeps(s, "\\[", "\\]", false);
    Unwrap(s, "\\[", "\\]", false)
  }

  /** The four rewrites in their fixed order. A text with none of the four
      triggers comes back unchanged. */
  function Clean(s: string): (r: string)
    ensures !Contains(s, "$$") && !Contains(s, "\\text{") && !Contains(s, "\\to") && !Contains(s, "\\[")
      ==> r == s
  {
    UnwrapBracketMath(Arrows(UnwrapText(UnwrapDisplayMath(s))))
  }

  // ------------------------------------------------------------ one pair

  /** A pair is replaced by what lies between the opener and the first
      closer after it (the lazy match), and the scan goes on after it. */
  lemma {:induction false} UnwrapPair(inner: string, y: string, open: string, close: string, oneLine: bool)
    requires open != [] && close != []
    requires IndexOf(inner + close, close) == Some(|inner|)
    requires oneLine ==> '\n' !in inner
    ensures Unwrap(open + inner + close + y, open, close, oneLine) == inner + Unwrap(y, open, close, oneLine)
  {
    var w := inner + close;
    var t := w + y;
    var s := open + inner + close + y;
    assert s == open + t by {
      Regroup(open, inner, close);
      Regroup(open, w, y);
    }
    assert StartsWith(s, open) && s[|open|..] == t by {
      Concat(open, t);
    }
    assert t[..|inner|] == inner && t[|inner| + |close|..] == y by {
      Concat(w, y);
      Concat(inner, close);
      assert t[..|inner|] == w[..|inner|];
    }
    IndexOfExtend(w, close, y);
  }

  /** A prefix free of the opener's first character is copied through. */
  lemma {:induction false} UnwrapAppendFree(x: string, y: string, open: string, close: string, oneLine: bool)
    requires open != [] && close != [] && open[0] !in x
    ensures Unwrap(x + y, open, close, oneLine) == x + Unwrap(y, open, close, oneLine)
    decreases |x|
  {
    if x == [] {
      assert x + y == y;
    } else {
      var s := x + y;
      assert !StartsWith(s, open) by {
        assert x[0] in x && s[0] == x[0];
        assert |open| <= |s| ==> s[..|open|][0] == s[0];
      }
      UnwrapNoMatch(s, open, close, oneLine);
      assert s[1..] == x[1..] + y;
      var u := Unwrap(y, open, close, oneLine);
      assert x + u == [x[0]] + (x[1..] + u);
      UnwrapAppendFree(x[1..], y, open, close, oneLine);
    }
  }

  /** Where no match starts, the first character is kept. */
  lemma {:induction false} UnwrapNoMatch(s: string, open: string, close: string, oneLine: bool)
    requires open != [] && close != [] && s != []
    requires !StartsWith(s, open) || CloseIndex(s[|open|..], close, oneLine).None?
    ensures Unwrap(s, open, close, oneLine) == [s[0]] + Unwrap(s[1..], open, close, oneLine)
  {
  }

  /** Without DOTALL, a line break before the first `}` blocks the match. */
  lemma {:induction false} NewlineBlocksClose(a: string, b: string)
    requires '}' !in a
    ensures CloseIndex(a + "\n" + b, "}", true).None?
  {
    var x := a + "\n";
    var t := x + b;
    assert forall i :: 0 <= i < |x| ==> t[i] == x[i] && x[i] != '}';
    if IndexOf(t, "}").Some? {
      var k := IndexOf(t, "}").value;
      assert t[k] == t[k..k + 1][0] == '}';
      assert t[..k][|a|] == '\n';
    }
  }

  /** Without a DOTALL flag, a `\text{` whose first `}` lies past a line
      break is not a match: the opener stays in the output. */
  lemma {:induction false} TextStopsAtNewline(a: string, b: string)
    requires '\\' !in a && '}' !in a
    ensures UnwrapText("\\text{" + a + "\n" + b) == "\\text{" + a + "\n" + UnwrapText(b)
  {
    var x := a + "\n";
    var rest := "text{" + x;
    var s := "\\" + (rest + b);
    assert "\\" + "text{" == "\\text{";
    assert s == "\\text{" + (x + b) by {
      Regroup("text{", x, b);
      Regroup("\\", "text{", x + b);
    }
    assert s[6..] == x + b by {
      Concat("\\text{", x + b);
    }
    NewlineBlocksClose(a, b);
    UnwrapNoMatch(s, "\\text{", "}", true);
    assert s[1..] == rest + b by {
      Concat("\\", rest + b);
    }
    assert '\\' !in rest by {
      forall i | 0 <= i < |rest|
        ensures rest[i] != '\\'
      {
        if i < 5 {
          assert rest[i] == "text{"[i];
        } else if i < 5 + |a| {
          assert rest[i] == a[i - 5];
        } else {
          assert rest[i] == '\n';
        }
      }
    }
    UnwrapAppendFree(rest, b, "\\text{", "}", true);
    assert "\\text{" + a + "\n" == "\\" + rest by {
      Regroup("\\text{", a, "\n");
      Regroup("\\", "text{", x);
    }
    assert "\\text{" + a + "\n" + b == s by {
      Regroup("\\", rest, b);
    }
    Regroup("\\", rest, UnwrapText(b));
  }

  // ------------------------------------------------------------ arrows

  /** The head of the arrow rewrite: `->` where `\to` started, else the
      first character unchanged. */
  lemma {:induction false} ArrowsHead(s: string)
    requires s != []
    ensures StartsWith(s, "\\to") ==> Arrows(s) == "->" + Arrows(s[3..])
    ensures !StartsWith(s, "\\to") ==> Arrows(s) == [s[0]] + Arrows(s[1..])
  {
  }

  /** Right after the third rewrite no `\to` is left: the replacement `->`
      contains no backslash, and no new `\to` can be glued together. */
  /** `\to` at the start, character by character. */
  lemma {:induction false} StartsWithArrow(u: string)
    ensures StartsWith(u, "\\to") <==> |u| >= 3 && u[0] == '\\' && u[1] == 't' && u[2] == 'o'
  {
    if |u| >= 3 {
      assert u[..3][0] == u[0] && u[..3][1] == u[1] && u[..3][2] == u[2];
    }
  }

  /** The first character `Arrows` writes is the input's own, unless an
      arrow was replaced there. */
  lemma {:induction false} ArrowsFirst(u: string)
    ensures Arrows(u) != [] && Arrows(u)[0] != '-' ==> u != [] && Arrows(u)[0] == u[0]
  {
    if u != [] {
      ArrowsHead(u);
    }
  }

  /** Output starting with `to` comes from input starting with `to`. */
  lemma {:induction false} ArrowsKeepsTo(t: string)
    ensures |Arrows(t)| >= 2 && Arrows(t)[0] == 't' && Arrows(t)[1] == 'o' ==> |t| >= 2 && t[0] == 't' && t[1] == 'o'
  {
    if |Arrows(t)| >= 2 && Arrows(t)[0] == 't' && Arrows(t)[1] == 'o' {
      ArrowsFirst(t);
      ArrowsHead(t);
      assert Arrows(t[1..]) == Arrows(t)[1..];
      ArrowsFirst(t[1..]);
    }
  }

  lemma {:induction false} ArrowsGone(s: string)
    ensures !Contains(Arrows(s), "\\to")
    decreases |s|
  {
    if s == [] {
      assert !StartsWith([], "\\to");
    } else {
      ArrowsHead(s);
      if StartsWith(s, "\\to") {
        ArrowsGone(s[3..]);
        NotContainsPrefix("->", Arrows(s[3..]), "\\to");
      } else {
        var rest := Arrows(s[1..]);
        ArrowsGone(s[1..]);
        if s[0] != '\\' {
          NotContainsPrefix([s[0]], rest, "\\to");
        } else {
          var t := [s[0]] + rest;
          ArrowsKeepsTo(s[1..]);
          StartsWithArrow(s);
          StartsWithArrow(t);
          assert ([s[0]] + rest)[1..] == rest;
        }
      }
    }
  }

  // ------------------------------------------------------------ the script's input

  /** A piece that none of the rewrites touches. */
  predicate Plain(a: string) {
    '$' !in a && '\\' !in a && '}' !in a && '\n' !in a
  }

  /** `\text{c}`. */
  function Word(c: string): string {
    "\\text{" + c + "}"
  }

  const Sep := " \\to "

  /** The shape of the script's input: display math around `\text{}` words
      joined by `\to`. */
  function ChainInput(a: string, c: string, e: string): string {
    "$$" + (Word(a) + (Sep + (Word(c) + (Sep + Word(e))))) + "$$"
  }

  lemma {:induction false} WordUnwraps(c: string, u: string)
    requires Plain(c)
    ensures UnwrapText(Word(c) + u) == c + UnwrapText(u)
  {
    IndexOfAfterFree(c, "}");
    UnwrapPair(c, u, "\\text{", "}", true);
  }

  /** The backslash of `\to` opens no `\text{`, so ` \to ` passes through. */
  lemma {:induction false} ArrowTextPasses(w: string)
    ensures UnwrapText("\\to " + w) == "\\to " + UnwrapText(w)
  {
    var s := "\\to " + w;
    assert !StartsWith(s, "\\text{") by {
      assert |s| >= 6 ==> s[..6][2] == 'o';
    }
    UnwrapNoMatch(s, "\\text{", "}", true);
    assert "\\" + "to " == "\\to ";
    Regroup("\\", "to ", w);
    assert s[1..] == "to " + w;
    UnwrapAppendFree("to ", w, "\\text{", "}", true);
    Regroup("\\", "to ", UnwrapText(w));
  }

  lemma {:induction false} SepWordUnwraps(c: string, u: string)
    requires Plain(c)
    ensures UnwrapText(Sep + (Word(c) + u)) == Sep + (c + UnwrapText(u))
  {
    var w := Word(c) + u;
    assert " " + "\\to " == Sep;
    Regroup(" ", "\\to ", w);
    UnwrapAppendFree(" ", "\\to " + w, "\\text{", "}", true);
    ArrowTextPasses(w);
    WordUnwraps(c, u);
    assert " " + "\\to " == Sep;
    Regroup(" ", "\\to ", c + UnwrapText(u));
  }

  lemma {:induction false} StepText(a: string, c: string, e: string)
    requires Plain(a) && Plain(c) && Plain(e)
    ensures UnwrapText(Word(a) + (Sep + (Word(c) + (Sep + Word(e))))) == a + (Sep + (c + (Sep + e)))
  {
    WordUnwraps(e, "");
    assert Word(e) + "" == Word(e);
    assert e + UnwrapText("") == e;
    SepWordUnwraps(e, "");
    SepWordUnwraps(c, Sep + Word(e));
    WordUnwraps(a, Sep + (Word(c) + (Sep + Word(e))));
  }

  lemma {:induction false} StepMath(inner: string)
    requires '$' !in inner
    ensures UnwrapDisplayMath("$$" + inner + "$$") == inner
  {
    IndexOfAfterFree(inner, "$$");
    UnwrapPair(inner, "", "$$", "$$", false);
    assert "$$" + inner + "$$" + "" == "$$" + inner + "$$";
  }

  /** One `\to` after a backslash-free prefix. */
  lemma {:induction false} ArrowsStep(x: string, y: string)
    requires '\\' !in x
    ensures Arrows(x + ("\\to" + y)) == x + ("->" + Arrows(y))
  {
    ReplaceAllAppend(x, "\\to" + y, "\\to", "->");
    ArrowsHead("\\to" + y);
    assert ("\\to" + y)[3..] == y;
  }

  /** ` \to ` followed by a backslash-free word. */
  lemma {:induction false} SepArrows(a: string, u: string)
    requires '\\' !in a
    ensures Arrows(a + (Sep + u)) == a + (" -> " + Arrows(u))
  {
    assert a + (Sep + u) == (a + " ") + ("\\to" + (" " + u));
    ArrowsStep(a + " ", " " + u);
    ReplaceAllAppend(" ", u, "\\to", "->");
    assert (a + " ") + ("->" + (" " + Arrows(u))) == a + (" -> " + Arrows(u));
  }

  lemma {:induction false} StepArrows(a: string, c: string, e: string)
    requires Plain(a) && Plain(c) && Plain(e)
    ensures Arrows(a + (Sep + (c + (Sep + e)))) == a + (" -> " + (c + (" -> " + e)))
  {
    NotContainsChar(e, "\\to");
    SepArrows(c, e);
    SepArrows(a, c + (Sep + e));
  }

  /** The script's input shape cleans to the words joined by ` -> `. */
  lemma {:induction false} ChainCleans(a: string, c: string, e: string)
    requires Plain(a) && Plain(c) && Plain(e)
    ensures Clean(ChainInput(a, c, e)) == a + (" -> " + (c + (" -> " + e)))
  {
    var inner := Word(a) + (Sep + (Word(c) + (Sep + Word(e))));
    assert '$' !in inner;
    StepMath(inner);
    StepText(a, c, e);
    StepArrows(a, c, e);
    var out := a + (" -> " + (c + (" -> " + e)));
    assert '\\' !in out;
    NotContainsChar(out, "\\[");
  }

  /** The script's own check: `$$\text{A} \to \text{C} \to \text{E}$$`
      cleans to `A -> C -> E`, which is already trimmed. */
  lemma {:induction false} SampleCleans()
    ensures Clean(ChainInput("A", "C", "E")) == "A -> C -> E"
    ensures Strip(Clean(ChainInput("A", "C", "E"))) == "A -> C -> E"
  {
    ChainCleans("A", "C", "E");
    SampleOutput();
    StripTrimmed("A -> C -> E");
  }

  /** The three words of the sample joined by arrows. */
  lemma SampleOutput()
    ensures "A" + (" -> " + ("C" + (" -> " + "E"))) == "A -> C -> E"
    ensures !IsSpace("A -> C -> E"[0]) && !IsSpace("A -> C -> E"[10])
  {
  }
}
