/** The input sanitizers of src/lib/utils.ts. Each regular-expression
    `replace` is written out as the character filter or rewrite it performs;
    `\s` is the ECMAScript white-space set of the Text module. */
module Utils {
  import opened Arrays
  import opened Text

  /** No two white-space characters are adjacent. */
  predicate NoSpaceRuns(s: string)
  {
    forall i :: 0 <= i < |s| - 1 ==> !IsSpace(s[i]) || !IsSpace(s[i + 1])
  }

  /** The only white space left is the plain space. */
  predicate OnlyPlainSpaces(s: string)
  {
    forall i :: 0 <= i < |s| ==> s[i] == ' ' || !IsSpace(s[i])
  }

  /** `replace(/\s+/g, ' ')`: every maximal run of white space becomes one
      plain space. */
  function CollapseSpaces(s: string): (r: string)
    ensures |r| <= |s|
    ensures OnlyPlainSpaces(r)
    ensures forall c :: c in r && c != ' ' ==> c in s
    ensures (forall i :: 0 <= i < |s| ==> !IsSpace(s[i])) ==> r == s
    decreases |s|
  {
    if s == [] then []
    else if IsSpace(s[0]) then
      var tail := s[1..];
      var rest := tail[LeadingSpaces(tail)..];
      assert forall c :: c in rest ==> c in s;
      [' '] + CollapseSpaces(rest)
    else
      [s[0]] + CollapseSpaces(s[1..])
  }

  /** A run of white space between two pieces of text becomes exactly one
      space, and each piece is collapsed on its own. With `a` or `b` empty
      this covers a leading or a trailing run; with the identity on text
      without white space it determines `CollapseSpaces` on every input. */
  lemma {:induction false} CollapseRun(a: string, w: string, b: string)
    requires a == [] || !IsSpace(a[|a| - 1])
    requires w != [] && forall i :: 0 <= i < |w| ==> IsSpace(w[i])
    requires b == [] || !IsSpace(b[0])
    ensures CollapseSpaces(a + w + b) == CollapseSpaces(a) + " " + CollapseSpaces(b)
    decreases |a|
  {
    if a == [] {
      CollapseRunAlone(a, w, b);
    } else if IsSpace(a[0]) {
      SkipKeepsLast(a);
      CollapseRun(a[1..][LeadingSpaces(a[1..])..], w, b);
      CollapseRunAfterSpace(a, w, b);
    } else {
      CollapseRun(a[1..], w, b);
      CollapseRunAfterChar(a, w, b);
    }
  }

  /** Base case of `CollapseRun`: nothing before the run. */
  lemma CollapseRunAlone(a: string, w: string, b: string)
    requires a == []
    requires w != [] && forall i :: 0 <= i < |w| ==> IsSpace(w[i])
    requires b == [] || !IsSpace(b[0])
    ensures CollapseSpaces(a + w + b) == CollapseSpaces(a) + " " + CollapseSpaces(b)
  {
    assert a + w == w;
    var e := CollapseSpaces(a);
    assert e == [];
    assert e + " " == " ";
    CollapseLeadingRun(w, b);
  }

  /** Skipping the leading run of the tail of `a` leaves a shorter,
      non-empty text with the same last character. */
  lemma SkipKeepsLast(a: string)
    requires |a| >= 1 && IsSpace(a[0]) && !IsSpace(a[|a| - 1])
    ensures var x := a[1..][LeadingSpaces(a[1..])..];
      x != [] && |x| < |a| && x[|x| - 1] == a[|a| - 1]
  {
    var a' := a[1..];
    assert a'[|a'| - 1] == a[|a| - 1];
  }

  /** Step case of `CollapseRun` when `a` starts with white space. */
  lemma CollapseRunAfterSpace(a: string, w: string, b: string)
    requires |a| >= 1 && IsSpace(a[0]) && !IsSpace(a[|a| - 1])
    requires var x := a[1..][LeadingSpaces(a[1..])..];
      CollapseSpaces(x + w + b) == CollapseSpaces(x) + " " + CollapseSpaces(b)
    ensures CollapseSpaces(a + w + b) == CollapseSpaces(a) + " " + CollapseSpaces(b)
  {
    var x := a[1..][LeadingSpaces(a[1..])..];
    Associative(a, w, b);
    Associative(x, w, b);
    CollapseSkip(a, w + b);
    JoinAfterHead(" ", CollapseSpaces(x), CollapseSpaces(x + (w + b)), CollapseSpaces(b));
  }

  /** Step case of `CollapseRun` when `a` starts with another character. */
  lemma CollapseRunAfterChar(a: string, w: string, b: string)
    requires a != [] && !IsSpace(a[0])
    requires CollapseSpaces(a[1..] + w + b) == CollapseSpaces(a[1..]) + " " + CollapseSpaces(b)
    ensures CollapseSpaces(a + w + b) == CollapseSpaces(a) + " " + CollapseSpaces(b)
  {
    var x := a[1..];
    Associative(a, w, b);
    Associative(x, w, b);
    CollapseStep(a, w + b);
    JoinAfterHead([a[0]], CollapseSpaces(x), CollapseSpaces(x + (w + b)), CollapseSpaces(b));
  }

  /** The algebra of one step of `CollapseRun`: a common head in front of
      both sides of the run. */
  lemma JoinAfterHead(c: string, x: string, xt: string, b: string)
    requires xt == x + " " + b
    ensures c + xt == c + x + " " + b
  {
    Associative(c, x + " ", b);
    Associative(c, x, " ");
  }

  /** A leading run of white space becomes one space. */
  lemma CollapseLeadingRun(w: string, b: string)
    requires w != [] && forall i :: 0 <= i < |w| ==> IsSpace(w[i])
    requires b == [] || !IsSpace(b[0])
    ensures CollapseSpaces(w + b) == " " + CollapseSpaces(b)
  {
    var s := w + b;
    assert s[0] == w[0];
    LeadingSpacesOfRun(w[1..], b);
    assert s[1..] == w[1..] + b && (w[1..] + b)[|w| - 1..] == b;
  }

  /** A first character that is not white space is copied. */
  lemma CollapseStep(a: string, t: string)
    requires a != [] && !IsSpace(a[0])
    ensures CollapseSpaces(a + t) == [a[0]] + CollapseSpaces(a[1..] + t)
    ensures CollapseSpaces(a) == [a[0]] + CollapseSpaces(a[1..])
  {
    assert (a + t)[0] == a[0] && (a + t)[1..] == a[1..] + t;
  }

  /** A leading run inside `a`, which ends in a non-space, becomes one space
      whatever follows `a`. */
  lemma CollapseSkip(a: string, t: string)
    requires |a| >= 1 && IsSpace(a[0]) && !IsSpace(a[|a| - 1])
    ensures LeadingSpaces(a[1..]) < |a[1..]|
    ensures CollapseSpaces(a + t) == " " + CollapseSpaces(a[1..][LeadingSpaces(a[1..])..] + t)
    ensures CollapseSpaces(a) == " " + CollapseSpaces(a[1..][LeadingSpaces(a[1..])..])
  {
    var a' := a[1..];
    var n := LeadingSpaces(a');
    assert a'[|a'| - 1] == a[|a| - 1];
    LeadingSpacesPrefix(a', t);
    assert (a + t)[0] == a[0] && (a + t)[1..] == a' + t;
    assert (a' + t)[n..] == a'[n..] + t;
  }

  /** The leading run of `w + b` is all of `w` when `b` does not start with
      white space. */
  lemma {:induction false} LeadingSpacesOfRun(w: string, b: string)
    requires forall i :: 0 <= i < |w| ==> IsSpace(w[i])
    requires b == [] || !IsSpace(b[0])
    ensures LeadingSpaces(w + b) == |w|
  {
    if w == [] {
      assert w + b == b;
    } else {
      assert (w + b)[1..] == w[1..] + b;
      LeadingSpacesOfRun(w[1..], b);
    }
  }

  /** A leading run that ends inside `x` is not affected by what follows `x`. */
  lemma {:induction false} LeadingSpacesPrefix(x: string, y: string)
    requires LeadingSpaces(x) < |x|
    ensures LeadingSpaces(x + y) == LeadingSpaces(x)
  {
    if IsSpace(x[0]) {
      assert (x + y)[1..] == x[1..] + y;
      LeadingSpacesPrefix(x[1..], y);
    }
  }

  /** Collapsing keeps the non-white-space text, in order. */
  lemma {:induction false} CollapseKeepsText(s: string)
    ensures WithoutSpaces(CollapseSpaces(s)) == WithoutSpaces(s)
    decreases |s|
  {
    if s != [] {
      if IsSpace(s[0]) {
        var tail := s[1..];
        var rest := tail[LeadingSpaces(tail)..];
        CollapseKeepsText(rest);
        WithoutLeadingSpaces(tail);
        assert ([' '] + CollapseSpaces(rest))[1..] == CollapseSpaces(rest);
      } else {
        CollapseKeepsText(s[1..]);
        assert ([s[0]] + CollapseSpaces(s[1..]))[1..] == CollapseSpaces(s[1..]);
      }
    }
  }

  /** Collapsing leaves no two adjacent white-space characters. */
  lemma {:induction false} CollapseNoRuns(s: string)
    ensures NoSpaceRuns(CollapseSpaces(s))
    decreases |s|
  {
    if s != [] {
      if IsSpace(s[0]) {
        var tail := s[1..];
        var rest := tail[LeadingSpaces(tail)..];
        CollapseNoRuns(rest);
        if rest != [] {
          assert !IsSpace(rest[0]);
          assert CollapseSpaces(rest)[0] == rest[0];
        }
      } else {
        CollapseNoRuns(s[1..]);
      }
    }
  }

  /** A text that ends in a non-white-space character still does after collapsing. */
  lemma {:induction false} CollapseKeepsLast(s: string)
    requires s != [] && !IsSpace(s[|s| - 1])
    ensures CollapseSpaces(s) != [] && !IsSpace(CollapseSpaces(s)[|CollapseSpaces(s)| - 1])
    decreases |s|
  {
    if IsSpace(s[0]) {
      var tail := s[1..];
      var rest := tail[LeadingSpaces(tail)..];
      assert rest != [] && rest[|rest| - 1] == s[|s| - 1];
      CollapseKeepsLast(rest);
    } else if |s| > 1 {
      CollapseKeepsLast(s[1..]);
    }
  }

  /** `replace(/[<>]/g, '')`. */
  function RemoveAngles(s: string): (r: string)
    ensures |r| <= |s|
    ensures '<' !in r && '>' !in r
    ensures forall c :: c in r ==> c in s
    ensures '<' !in s && '>' !in s ==> r == s
    ensures forall c :: c != '<' && c != '>' ==> multiset(r)[c] == multiset(s)[c]
  {
    if s == [] then []
    else
      assert s == [s[0]] + s[1..];
      if s[0] == '<' || s[0] == '>' then RemoveAngles(s[1..])
      else [s[0]] + RemoveAngles(s[1..])
  }

  /** Removal works character by character: removing from a concatenation
      is concatenating what is left of each part. */
  lemma {:induction false} RemoveAnglesConcat(a: string, b: string)
    ensures RemoveAngles(a + b) == RemoveAngles(a) + RemoveAngles(b)
  {
    if a == [] {
      assert a + b == b;
    } else {
      assert (a + b)[0] == a[0] && (a + b)[1..] == a[1..] + b;
      RemoveAnglesConcat(a[1..], b);
    }
  }

  /** Angle brackets are not white space, so removing them and removing white
      space can be done in either order. */
  lemma {:induction false} WithoutSpacesRemoveAngles(s: string)
    ensures WithoutSpaces(RemoveAngles(s)) == RemoveAngles(WithoutSpaces(s))
  {
    if s != [] {
      WithoutSpacesRemoveAngles(s[1..]);
      if s[0] != '<' && s[0] != '>' {
        assert ([s[0]] + RemoveAngles(s[1..]))[1..] == RemoveAngles(s[1..]);
      }
      if !IsSpace(s[0]) {
        assert ([s[0]] + WithoutSpaces(s[1..]))[1..] == WithoutSpaces(s[1..]);
      }
    }
  }

  /** `sanitizeInput`: trim, collapse white space, then drop `<` and `>`.
      The only white space left is the plain space, and the text other than
      white space is the input's, in order, without its angle brackets. */
  function SanitizeInput(input: string): (r: string)
    ensures |r| <= |input|
    ensures '<' !in r && '>' !in r
    ensures OnlyPlainSpaces(r)
    ensures WithoutSpaces(r) == RemoveAngles(WithoutSpaces(input))
  {
    TrimSpec(input);
    var c := CollapseSpaces(Trim(input));
    var r := RemoveAngles(c);
    assert forall i :: 0 <= i < |r| ==> r[i] in c;
    TrimKeepsText(input);
    CollapseKeepsText(Trim(input));
    WithoutSpacesRemoveAngles(c);
    r
  }

  /** A trimmed text is still trimmed after collapsing, with no runs. */
  lemma CollapseTrimmed(t: string)
    requires IsTrimmed(t)
    ensures IsTrimmed(CollapseSpaces(t)) && NoSpaceRuns(CollapseSpaces(t))
  {
    CollapseNoRuns(t);
    if t != [] {
      CollapseKeepsLast(t);
      assert CollapseSpaces(t)[0] == t[0];
    }
  }

  /** Without angle brackets in the input, the result is trimmed, has single
      plain spaces only and keeps all of the input's other characters in order. */
  lemma SanitizeInputClean(input: string)
    requires '<' !in input && '>' !in input
    ensures SanitizeInput(input) == CollapseSpaces(Trim(input))
    ensures IsTrimmed(SanitizeInput(input))
    ensures NoSpaceRuns(SanitizeInput(input)) && OnlyPlainSpaces(SanitizeInput(input))
    ensures WithoutSpaces(SanitizeInput(input)) == WithoutSpaces(input)
  {
    var t := Trim(input);
    TrimSpec(input);
    TrimKeepsText(input);
    var c := CollapseSpaces(t);
    assert '<' !in c && '>' !in c;
    assert SanitizeInput(input) == c;
    CollapseTrimmed(t);
    CollapseKeepsText(t);
  }

  /** Two bracket-free pieces of text separated by any run of white space
      are sanitized on their own and joined by exactly one space. */
  lemma SanitizeInputJoinsWords(a: string, w: string, b: string)
    requires a != [] && IsTrimmed(a) && '<' !in a && '>' !in a
    requires b != [] && IsTrimmed(b) && '<' !in b && '>' !in b
    requires w != [] && forall i :: 0 <= i < |w| ==> IsSpace(w[i])
    ensures SanitizeInput(a + w + b) == SanitizeInput(a) + " " + SanitizeInput(b)
  {
    var s := a + w + b;
    assert s[0] == a[0] && s[|s| - 1] == b[|b| - 1];
    TrimOfTrimmed(s);
    TrimOfTrimmed(a);
    TrimOfTrimmed(b);
    assert '<' !in s && '>' !in s by {
      forall i | 0 <= i < |s| ensures s[i] != '<' && s[i] != '>' {
        if i < |a| { assert s[i] == a[i]; }
        else if i < |a| + |w| { assert s[i] == w[i - |a|]; }
        else { assert s[i] == b[i - |a| - |w|]; }
      }
    }
    SanitizeInputClean(s);
    SanitizeInputClean(a);
    SanitizeInputClean(b);
    CollapseRun(a, w, b);
  }

  /** Removal comes after trimming and collapsing, so an angle bracket next to
      white space leaves a leading space or a double space behind, and a second
      pass changes the text again. */
  lemma SanitizeInputLeavesSpaces()
    ensures SanitizeInput("< a") == " a" && !IsTrimmed(SanitizeInput("< a"))
    ensures SanitizeInput("a < b") == "a  b" && !NoSpaceRuns(SanitizeInput("a < b"))
    ensures SanitizeInput(SanitizeInput("< a")) != SanitizeInput("< a")
  {
    SanitizeLeadingBracket();
    SanitizeInnerBracket();
    SanitizeSecondPass();
    assert " a"[0] == ' ';
    assert "a  b"[1] == ' ' && "a  b"[2] == ' ';
    assert "a" != " a";
  }

  lemma SanitizeLeadingBracket()
    ensures SanitizeInput("< a") == " a"
  {
    var s := "< a";
    assert LeadingSpaces(s) == 0 && TrailingSpaces(s) == 0;
    assert Trim(s) == s;
    assert s[1..] == " a" && s[1..][1..] == "a";
    assert CollapseSpaces("a") == "a";
    assert LeadingSpaces("a") == 0;
    assert CollapseSpaces(" a") == " a";
    assert CollapseSpaces(s) == s;
    assert RemoveAngles(" a") == " a";
  }

  lemma SanitizeSecondPass()
    ensures SanitizeInput(" a") == "a"
  {
    var s := " a";
    assert LeadingSpaces(s) == 1 && s[1..] == "a";
    assert TrailingSpaces("a") == 0;
    assert Trim(s) == "a";
    assert CollapseSpaces("a") == "a";
    assert RemoveAngles("a") == "a";
  }

  lemma SanitizeInnerBracket()
    ensures SanitizeInput("a < b") == "a  b"
  {
    TrimInner();
    CollapseInner();
    RemoveInner();
  }

  lemma TrimInner()
    ensures Trim("a < b") == "a < b"
  {
    var s := "a < b";
    assert LeadingSpaces(s) == 0;
    assert TrailingSpaces(s) == 0;
    assert s[0..] == s;
  }

  lemma CollapseInner()
    ensures CollapseSpaces("a < b") == "a < b"
  {
    assert "a < b" == "a" + " " + "< b" && "< b" == "<" + " " + "b";
    CollapseRun("<", " ", "b");
    CollapseRun("a", " ", "< b");
  }

  lemma RemoveInner()
    ensures RemoveAngles("a < b") == "a  b"
  {
    assert "a < b"[1..] == " < b";
    assert " < b"[1..] == "< b";
    assert "< b"[1..] == " b";
    assert RemoveAngles(" b") == " b";
    assert RemoveAngles("< b") == " b";
    assert RemoveAngles(" < b") == "  b";
  }

  /** The character class `[a-zA-ZÀ-ÿ\s'-]`. */
  predicate AllowedInName(c: char)
  {
    ('a' <= c <= 'z') || ('A' <= c <= 'Z') || (0xC0 <= c as int <= 0xFF) || IsSpace(c) || c == '\'' || c == '-'
  }

  /** `sanitizeName`: the sanitized input with every character outside the
      class removed, the rest kept in order and as often as they occur. */
  function SanitizeName(name: string): (r: string)
    ensures forall i :: 0 <= i < |r| ==> AllowedInName(r[i])
    ensures forall c :: multiset(r)[c] == if AllowedInName(c) then multiset(SanitizeInput(name))[c] else 0
    ensures forall i :: 0 <= i < |SanitizeInput(name)| && AllowedInName(SanitizeInput(name)[i]) ==> SanitizeInput(name)[i] in r
    ensures IsSubsequence(r, SanitizeInput(name))
  {
    var s := SanitizeInput(name);
    FilterIsSubsequence(s, AllowedInName);
    Filter(s, AllowedInName)
  }

  /** `sanitizeEmail`: trimmed and lower-cased. */
  function SanitizeEmail(email: string): (r: string)
    ensures IsLowerCase(r) && IsTrimmed(r)
    ensures |r| <= |email|
    ensures |r| == |Trim(email)| && forall i :: 0 <= i < |r| ==> r[i] == LowerChar(Trim(email)[i])
  {
    TrimSpec(email);
    var t := Trim(email);
    ToLowerIsLowerCase(t);
    if t == [] then
      ToLower(t)
    else
      LowerCharKeepsSpace(t[0]);
      LowerCharKeepsSpace(t[|t| - 1]);
      ToLower(t)
  }

  /** Sanitizing an address twice is sanitizing it once. */
  lemma SanitizeEmailIdempotent(email: string)
    ensures SanitizeEmail(SanitizeEmail(email)) == SanitizeEmail(email)
  {
    var r := SanitizeEmail(email);
    TrimOfTrimmed(r);
    ToLowerIdempotent(Trim(email));
  }
}
