/**
 * Placeholder substitution: every `{name}` in the document text is replaced by the
 * text of the variable's resolved number, variable by variable in list order.
 *
 * The source builds a global regular expression from the name; for names without
 * regular-expression metacharacters that is a literal, leftmost, non-overlapping
 * replace, which is what `ReplaceAll` models. Number-to-text conversion is the
 * parameter `show`.
 */
module Substitution {
  import opened Options
  import opened Variables

  /** The placeholder token of a variable name. */
  function Token(name: string): (t: string)
    ensures |t| == |name| + 2
    ensures t[0] == '{' && t[|t| - 1] == '}' && t[1..|t| - 1] == name
  {
    "{" + name + "}"
  }

  predicate BraceFree(s: string) {
    '{' !in s && '}' !in s
  }

  /** `t` occurs in `s` starting at index `i`. */
  predicate OccursAt(s: string, t: string, i: nat) {
    i + |t| <= |s| && s[i..i + |t|] == t
  }

  ghost predicate Occurs(s: string, t: string) {
    exists i: nat :: OccursAt(s, t, i)
  }

  predicate StartsWith(s: string, p: string) {
    |p| <= |s| && s[..|p|] == p
  }

  /** A token whose only opening brace is its first character, like `Token(name)` for a brace-free name. */
  predicate LeadingBraceOnly(tok: string) {
    tok != [] && tok[0] == '{' && '{' !in tok[1..]
  }

  /** `s.replace(/tok/g, rep)` for a literal `tok`: leftmost, non-overlapping, left to right. */
  function ReplaceAll(s: string, tok: string, rep: string): string
    requires tok != []
    decreases |s|
  {
    if |s| < |tok| then s
    else if s[..|tok|] == tok then rep + ReplaceAll(s[|tok|..], tok, rep)
    else [s[0]] + ReplaceAll(s[1..], tok, rep)
  }

  /** `substituteVariables`: apply the replacement of each variable, in list order. */
  function Substitute(s: string, vars: seq<Variable>, show: real -> string): string
    decreases |vars|
  {
    if vars == [] then s
    else Substitute(ReplaceAll(s, Token(vars[0].name), show(vars[0].Resolved())), vars[1..], show)
  }

  // ---------------------------------------------------------------------------
  // Facts about occurrences

  lemma OccursInSuffix(s: string, t: string, k: nat, i: nat)
    requires k <= |s| && OccursAt(s[k..], t, i)
    ensures OccursAt(s, t, k + i)
  {
    assert s[k..][i..i + |t|] == s[k + i..k + i + |t|];
  }

  lemma SuffixOccurrence(s: string, t: string, k: nat)
    requires k <= |s|
    ensures Occurs(s[k..], t) ==> Occurs(s, t)
  {
    if Occurs(s[k..], t) {
      var i: nat :| OccursAt(s[k..], t, i);
      OccursInSuffix(s, t, k, i);
    }
  }

  lemma OccursAfterPrefix(p: string, s: string, t: string, i: nat)
    requires |p| <= i
    ensures OccursAt(p + s, t, i) <==> OccursAt(s, t, i - |p|)
  {
    if i + |t| <= |p + s| {
      assert (p + s)[i..i + |t|] == s[i - |p|..i - |p| + |t|];
    }
  }

  lemma NoBraceNoToken(s: string, tok: string)
    requires tok != [] && tok[0] == '{' && '{' !in s
    ensures !Occurs(s, tok)
  {
    forall i: nat | i + |tok| <= |s|
      ensures !OccursAt(s, tok, i)
    {
      assert s[i..i + |tok|][0] == s[i];
    }
  }

  // ---------------------------------------------------------------------------
  // Single-token replacement

  /** Text in which the token does not occur is returned unchanged. */
  lemma {:induction false} ReplaceAllAbsent(s: string, tok: string, rep: string)
    requires tok != [] && !Occurs(s, tok)
    ensures ReplaceAll(s, tok, rep) == s
    decreases |s|
  {
    if |s| >= |tok| {
      assert !OccursAt(s, tok, 0);
      SuffixOccurrence(s, tok, 1);
      ReplaceAllAbsent(s[1..], tok, rep);
    }
  }

  /** A character other than an opening brace cannot start a match and is copied. */
  lemma ReplaceAllCons(c: char, t: string, tok: string, rep: string)
    requires tok != [] && tok[0] == '{' && c != '{'
    ensures ReplaceAll([c] + t, tok, rep) == [c] + ReplaceAll(t, tok, rep)
  {
    var s := [c] + t;
    assert s[1..] == t;
    if |s| >= |tok| {
      assert s[..|tok|][0] == c;
    } else {
      assert ReplaceAll(t, tok, rep) == t;
    }
  }

  /** Text before the first brace is copied verbatim: no token can start there. */
  lemma {:induction false} ReplaceAllBraceFreePrefix(a: string, c: string, tok: string, rep: string)
    requires tok != [] && tok[0] == '{' && '{' !in a
    ensures ReplaceAll(a + c, tok, rep) == a + ReplaceAll(c, tok, rep)
    decreases |a|
  {
    if a == [] {
      assert a + c == c;
    } else {
      assert a + c == [a[0]] + (a[1..] + c);
      ReplaceAllCons(a[0], a[1..] + c, tok, rep);
      ReplaceAllBraceFreePrefix(a[1..], c, tok, rep);
      assert a == [a[0]] + a[1..];
    }
  }

  /**
   * When the second part begins with a brace, no match straddles the boundary,
   * so the replacement works on the two parts independently.
   */
  lemma {:induction false} ReplaceAllSplit(a: string, c: string, tok: string, rep: string)
    requires LeadingBraceOnly(tok)
    requires c != [] && c[0] == '{'
    ensures ReplaceAll(a + c, tok, rep) == ReplaceAll(a, tok, rep) + ReplaceAll(c, tok, rep)
    decreases |a|
  {
    if a == [] {
      assert a + c == c;
    } else {
      var s := a + c;
      if |s| < |tok| {
        assert ReplaceAll(c, tok, rep) == c;
      } else if s[..|tok|] == tok {
        NoStraddle(a, c, tok);
        assert a[..|tok|] == tok;
        assert s[|tok|..] == a[|tok|..] + c;
        ReplaceAllSplit(a[|tok|..], c, tok, rep);
      } else {
        assert s[1..] == a[1..] + c;
        ReplaceAllSplit(a[1..], c, tok, rep);
        if |a| < |tok| {
          assert ReplaceAll(a[1..], tok, rep) == a[1..];
          assert a == [a[0]] + a[1..];
        } else {
          assert a[..|tok|] == s[..|tok|];
        }
      }
    }
  }

  /** Every occurrence of a listed token becomes the replacement text; the text around it is processed independently. */
  lemma ReplaceAllToken(a: string, b: string, name: string, rep: string)
    requires '{' !in name
    ensures ReplaceAll(a + Token(name) + b, Token(name), rep)
         == ReplaceAll(a, Token(name), rep) + rep + ReplaceAll(b, Token(name), rep)
  {
    var tok := Token(name);
    assert tok[1..] == name + "}";
    assert a + tok + b == a + (tok + b);
    ReplaceAllSplit(a, tok + b, tok, rep);
    assert (tok + b)[..|tok|] == tok;
    assert (tok + b)[|tok|..] == b;
  }

  /** A token starts a text exactly when its brace is followed by the name and closing brace. */
  lemma TokenAtFront(c: char, x: string, n: string)
    ensures OccursAt([c] + x, Token(n), 0) <==> c == '{' && StartsWith(x, n + "}")
  {
    var t := Token(n);
    assert t == [t[0]] + (n + "}");
    if |t| <= |[c] + x| {
      assert ([c] + x)[..|t|] == [c] + x[..|t| - 1];
    }
  }

  /** A match of `tok` cannot start before a brace that begins the second part. */
  lemma NoStraddle(a: string, c: string, tok: string)
    requires LeadingBraceOnly(tok) && a != [] && c != [] && c[0] == '{'
    ensures StartsWith(a + c, tok) ==> |a| >= |tok|
  {
    if |a| < |tok| && |tok| <= |a + c| {
      assert tok[1..][|a| - 1] == tok[|a|];
      assert (a + c)[..|tok|][|a|] == c[0];
    }
  }

  /** Two distinct brace-free names: text starting with the token of one does not start with the other's. */
  lemma DistinctTokensDiffer(x: string, b: string, name: string)
    requires BraceFree(x) && BraceFree(name) && x != name
    ensures !StartsWith(Token(x) + b, Token(name))
  {
    var c := Token(x) + b;
    var tok := Token(name);
    if |tok| <= |c| {
      if |name| < |x| {
        assert c[..|tok|][|name| + 1] == x[|name|];
        assert tok[|name| + 1] == '}';
      } else if |name| > |x| {
        assert c[..|tok|][|x| + 1] == '}';
        assert tok[|x| + 1] == name[|x|];
      } else {
        assert c[..|tok|][1..|x| + 1] == x;
        assert tok[1..|name| + 1] == name;
      }
    }
  }

  /** Text that starts with the token of a different name keeps that token in front. */
  lemma ReplaceAllOtherTokenFront(x: string, b: string, name: string, rep: string)
    requires BraceFree(x) && BraceFree(name) && x != name
    ensures ReplaceAll(Token(x) + b, Token(name), rep) == Token(x) + ReplaceAll(b, Token(name), rep)
  {
    var tok := Token(name);
    var c := Token(x) + b;
    if |c| < |tok| {
      assert ReplaceAll(b, tok, rep) == b;
    } else {
      DistinctTokensDiffer(x, b, name);
      assert ReplaceAll(c, tok, rep) == [c[0]] + ReplaceAll(c[1..], tok, rep);
      assert c[1..] == (x + "}") + b;
      ReplaceAllBraceFreePrefix(x + "}", b, tok, rep);
      assert Token(x) == [c[0]] + (x + "}");
    }
  }

  /** A token of a different brace-free name passes through a replacement verbatim. */
  lemma ReplaceAllOtherToken(a: string, x: string, b: string, name: string, rep: string)
    requires BraceFree(x) && BraceFree(name) && x != name
    ensures ReplaceAll(a + Token(x) + b, Token(name), rep)
         == ReplaceAll(a, Token(name), rep) + Token(x) + ReplaceAll(b, Token(name), rep)
  {
    var tok := Token(name);
    assert tok[1..] == name + "}";
    assert a + Token(x) + b == a + (Token(x) + b);
    ReplaceAllSplit(a, Token(x) + b, tok, rep);
    ReplaceAllOtherTokenFront(x, b, name, rep);
  }

  /**
   * If the replacement text `R` of the input starts with `w}` then so does the
   * input, provided the replacement text is brace-free and does not occur in `w`.
   */
  lemma {:induction false} ReplaceAllKeepsClosingPrefix(x: string, tok: string, rep: string, w: string)
    requires tok != [] && BraceFree(rep) && !Occurs(w, rep)
    ensures StartsWith(ReplaceAll(x, tok, rep), w + "}") ==> StartsWith(x, w + "}")
    decreases |x|
  {
    var p := w + "}";
    if |x| < |tok| {
    } else if x[..|tok|] == tok {
      var r := ReplaceAll(x, tok, rep);
      assert r == rep + ReplaceAll(x[|tok|..], tok, rep);
      assert !OccursAt(w, rep, 0);
      if |rep| <= |w| {
        assert p[..|rep|] == w[..|rep|];
        assert |rep| <= |r| ==> r[..|rep|] == rep;
      } else {
        assert p[|w|] == '}';
        assert |w| < |r| ==> r[|w|] == rep[|w|];
      }
    } else {
      var r := ReplaceAll(x, tok, rep);
      assert r == [x[0]] + ReplaceAll(x[1..], tok, rep);
      if w != [] {
        SuffixOccurrence(w, rep, 1);
        ReplaceAllKeepsClosingPrefix(x[1..], tok, rep, w[1..]);
        assert p[1..] == w[1..] + "}";
        if StartsWith(r, p) {
          assert r[1..][..|p| - 1] == p[1..];
          assert x[..|p|] == [x[0]] + x[1..][..|p| - 1];
        }
      }
    }
  }

  /**
   * After replacing `{name}` by `rep`, the token of `n2` does not occur, provided it did
   * not occur before (or is the replaced token itself) and `rep` cannot complete it.
   */
  lemma {:induction false} ReplaceAllLeavesNoToken(s: string, name: string, rep: string, n2: string)
    requires BraceFree(name) && BraceFree(n2) && BraceFree(rep) && !Occurs(n2, rep)
    requires n2 == name || !Occurs(s, Token(n2))
    ensures !Occurs(ReplaceAll(s, Token(name), rep), Token(n2))
    decreases |s|
  {
    var tok := Token(name);
    var t2 := Token(n2);
    var r := ReplaceAll(s, tok, rep);
    assert t2[1..] == n2 + "}";
    if |s| < |tok| {
    } else if s[..|tok|] == tok {
      var rest := s[|tok|..];
      SuffixOccurrence(s, t2, |tok|);
      ReplaceAllLeavesNoToken(rest, name, rep, n2);
      assert r == rep + ReplaceAll(rest, tok, rep);
      forall i: nat
        ensures !OccursAt(r, t2, i)
      {
        if i < |rep| {
          assert i + |t2| <= |r| ==> r[i..i + |t2|][0] == rep[i];
        } else {
          OccursAfterPrefix(rep, ReplaceAll(rest, tok, rep), t2, i);
        }
      }
    } else {
      var rest := s[1..];
      SuffixOccurrence(s, t2, 1);
      ReplaceAllLeavesNoToken(rest, name, rep, n2);
      ReplaceAllKeepsClosingPrefix(rest, tok, rep, n2);
      assert r == [s[0]] + ReplaceAll(rest, tok, rep);
      forall i: nat
        ensures !OccursAt(r, t2, i)
      {
        if i == 0 {
          TokenAtFront(s[0], ReplaceAll(rest, tok, rep), n2);
          TokenAtFront(s[0], rest, n2);
          assert s == [s[0]] + rest;
        } else {
          OccursAfterPrefix([s[0]], ReplaceAll(rest, tok, rep), t2, i);
        }
      }
    }
  }

  // ---------------------------------------------------------------------------
  // The ordered fold over the variable list

  /** Every listed name is brace-free, as the literal-token reading of the source assumes. */
  predicate NamesBraceFree(vars: seq<Variable>) {
    forall v :: v in vars ==> BraceFree(v.name)
  }

  /**
   * No replacement text can form a listed token: each is brace-free and occurs in no
   * listed name. Without this, a replacement can complete a token (see `ResidualTokenExample`).
   */
  ghost predicate ReplacementsInert(vars: seq<Variable>, show: real -> string) {
    && (forall j :: 0 <= j < |vars| ==> BraceFree(show(vars[j].Resolved())))
    && (forall i, j :: 0 <= i < |vars| && 0 <= j < |vars| ==> !Occurs(vars[i].name, show(vars[j].Resolved())))
  }

  /** Substituting with a list split in two is substituting with the parts in turn. */
  lemma {:induction false} SubstituteAppend(s: string, a: seq<Variable>, b: seq<Variable>, show: real -> string)
    ensures Substitute(s, a + b, show) == Substitute(Substitute(s, a, show), b, show)
    decreases |a|
  {
    if a == [] {
      assert a + b == b;
    } else {
      assert (a + b)[0] == a[0];
      assert (a + b)[1..] == a[1..] + b;
      SubstituteAppend(ReplaceAll(s, Token(a[0].name), show(a[0].Resolved())), a[1..], b, show);
    }
  }

  /** Text without an opening brace is returned unchanged, whatever the variables. */
  lemma {:induction false} SubstituteWithoutBraces(s: string, vars: seq<Variable>, show: real -> string)
    requires '{' !in s
    ensures Substitute(s, vars, show) == s
    decreases |vars|
  {
    if vars != [] {
      var tok := Token(vars[0].name);
      NoBraceNoToken(s, tok);
      ReplaceAllAbsent(s, tok, show(vars[0].Resolved()));
      SubstituteWithoutBraces(s, vars[1..], show);
    }
  }

  /** A token `{x}` naming no listed variable survives verbatim, and the text around it is substituted independently. */
  lemma {:induction false} SubstituteKeepsUnknownToken(a: string, x: string, b: string, vars: seq<Variable>, show: real -> string)
    requires BraceFree(x) && NamesBraceFree(vars)
    requires forall v :: v in vars ==> v.name != x
    ensures Substitute(a + Token(x) + b, vars, show) == Substitute(a, vars, show) + Token(x) + Substitute(b, vars, show)
    decreases |vars|
  {
    if vars != [] {
      var tok := Token(vars[0].name);
      var rep := show(vars[0].Resolved());
      assert vars[0] in vars;
      ReplaceAllOtherToken(a, x, b, vars[0].name, rep);
      assert forall v :: v in vars[1..] ==> v in vars;
      SubstituteKeepsUnknownToken(ReplaceAll(a, tok, rep), x, ReplaceAll(b, tok, rep), vars[1..], show);
    }
  }

  /** A token naming no listed variable is left as it is. */
  lemma UnknownTokenAlone(n: string, vars: seq<Variable>, show: real -> string)
    requires BraceFree(n) && NamesBraceFree(vars)
    requires forall v :: v in vars ==> v.name != n
    ensures Substitute(Token(n), vars, show) == Token(n)
  {
    SubstituteKeepsUnknownToken("", n, "", vars, show);
    SubstituteWithoutBraces("", vars, show);
    assert "" + Token(n) + "" == Token(n);
  }

  /** A token of the first variable in the list becomes that variable's text. */
  lemma LeadingTokenReplaced(vars: seq<Variable>, show: real -> string)
    requires vars != [] && BraceFree(vars[0].name)
    requires '{' !in show(vars[0].Resolved())
    ensures Substitute(Token(vars[0].name), vars, show) == show(vars[0].Resolved())
  {
    var n := vars[0].name;
    var rep := show(vars[0].Resolved());
    ReplaceAllToken("", "", n, rep);
    assert "" + Token(n) + "" == Token(n);
    assert ReplaceAll("", Token(n), rep) == "";
    assert ReplaceAll(Token(n), Token(n), rep) == rep;
    assert Substitute(Token(n), vars, show) == Substitute(rep, vars[1..], show);
    SubstituteWithoutBraces(rep, vars[1..], show);
  }

  /** A token alone becomes the text of the FIRST listed variable with that name. */
  lemma {:induction false} TokenTakesFirstMatch(vars: seq<Variable>, k: nat, show: real -> string)
    requires k < |vars| && NamesBraceFree(vars)
    requires forall m :: 0 <= m < k ==> vars[m].name != vars[k].name
    requires '{' !in show(vars[k].Resolved())
    ensures Substitute(Token(vars[k].name), vars, show) == show(vars[k].Resolved())
  {
    var n := vars[k].name;
    var pre, post := vars[..k], vars[k..];
    assert vars[k] in vars;
    assert vars == pre + post;
    SubstituteAppend(Token(n), pre, post, show);
    forall v | v in pre
      ensures v in vars && v.name != n
    {
      var m :| 0 <= m < k && pre[m] == v;
    }
    UnknownTokenAlone(n, pre, show);
    assert post[0] == vars[k];
    assert forall v :: v in post ==> v in vars;
    LeadingTokenReplaced(post, show);
  }

  // ---------------------------------------------------------------------------
  // Replacement text in the middle of a document

  /** A closing brace in `x + c`, where `c` starts with a brace-free `m`, lies outside that `m`. */
  lemma ClosingBraceOutsideMiddle(x: string, c: string, m: string, e: nat)
    requires BraceFree(m) && StartsWith(c, m) && e < |x + c| && (x + c)[e] == '}'
    ensures e < |x| || |x| + |m| <= e
  {
    assert forall q :: 0 <= q < |m| ==> (x + c)[|x| + q] == m[q];
  }

  /**
   * A token that starts in `x` and reaches into a brace-free `m` following it must hold the
   * whole of `m` inside its name: the closing brace cannot fall inside `m`.
   */
  lemma {:induction false} StraddleInsideName(x: string, c: string, m: string, n: string)
    requires BraceFree(m) && m != [] && x != [] && StartsWith(c, m)
    ensures StartsWith(x + c, Token(n)) && |x| < |Token(n)| ==> OccursAt(n, m, |x| - 1)
  {
    var s := x + c;
    var t := Token(n);
    if StartsWith(s, t) && |x| < |t| {
      assert s[|t| - 1] == t[|t| - 1] == '}';
      ClosingBraceOutsideMiddle(x, c, m, |t| - 1);
      forall q | 0 <= q < |m|
        ensures m[q] == n[|x| - 1 + q]
      {
        assert s[|x| + q] == c[q] == m[q];
        assert s[|x| + q] == t[|x| + q];
      }
      assert n[|x| - 1..|x| - 1 + |m|] == m;
    }
  }

  /** The front of a token can only lie in `x` when the whole token does. */
  lemma FrontTokenInLeft(x: string, c: string, m: string, n: string)
    requires BraceFree(m) && m != [] && x != [] && StartsWith(c, m) && !Occurs(n, m)
    requires StartsWith(x + c, Token(n))
    ensures |x| >= |Token(n)| && x[..|Token(n)|] == Token(n)
  {
    StraddleInsideName(x, c, m, n);
    assert |x| >= |Token(n)|;
    assert (x + c)[..|Token(n)|] == x[..|Token(n)|];
  }

  /** No match crosses into a text that starts with a brace-free `m` occurring in no part of the name. */
  lemma {:induction false} ReplaceAllSplitBeforeMiddle(a: string, c: string, m: string, n: string, rep: string)
    requires BraceFree(n) && BraceFree(m) && m != [] && StartsWith(c, m) && !Occurs(n, m)
    ensures ReplaceAll(a + c, Token(n), rep) == ReplaceAll(a, Token(n), rep) + ReplaceAll(c, Token(n), rep)
    decreases |a|
  {
    var tok := Token(n);
    if a == [] {
      assert a + c == c;
    } else {
      var s := a + c;
      if |s| < |tok| {
        assert ReplaceAll(c, tok, rep) == c;
      } else if s[..|tok|] == tok {
        FrontTokenInLeft(a, c, m, n);
        assert s[|tok|..] == a[|tok|..] + c;
        ReplaceAllSplitBeforeMiddle(a[|tok|..], c, m, n, rep);
      } else {
        assert s[1..] == a[1..] + c;
        ReplaceAllSplitBeforeMiddle(a[1..], c, m, n, rep);
        if |a| < |tok| {
          assert ReplaceAll(a[1..], tok, rep) == a[1..];
          assert a == [a[0]] + a[1..];
        } else {
          assert a[..|tok|] == s[..|tok|];
        }
      }
    }
  }

  /**
   * A brace-free, non-empty text that occurs in no part of the name passes through a
   * replace unchanged, and no match crosses it: the text on each side is replaced on its own.
   */
  lemma ReplaceAllKeepsMiddle(x: string, m: string, y: string, n: string, rep: string)
    requires BraceFree(n) && BraceFree(m) && m != [] && !Occurs(n, m)
    ensures ReplaceAll(x + m + y, Token(n), rep)
         == ReplaceAll(x, Token(n), rep) + m + ReplaceAll(y, Token(n), rep)
  {
    assert x + m + y == x + (m + y);
    assert (m + y)[..|m|] == m;
    ReplaceAllSplitBeforeMiddle(x, m + y, m, n, rep);
    ReplaceAllBraceFreePrefix(m, y, Token(n), rep);
  }

  /** Such a middle also passes through a whole substitution, and the two sides are substituted on their own. */
  lemma {:induction false} SubstituteKeepsMiddle(x: string, m: string, y: string, vars: seq<Variable>, show: real -> string)
    requires NamesBraceFree(vars) && BraceFree(m) && m != []
    requires forall v :: v in vars ==> !Occurs(v.name, m)
    ensures Substitute(x + m + y, vars, show) == Substitute(x, vars, show) + m + Substitute(y, vars, show)
    decreases |vars|
  {
    if vars != [] {
      var tok := Token(vars[0].name);
      var rep := show(vars[0].Resolved());
      assert vars[0] in vars;
      ReplaceAllKeepsMiddle(x, m, y, vars[0].name, rep);
      assert forall v :: v in vars[1..] ==> v in vars;
      SubstituteKeepsMiddle(ReplaceAll(x, tok, rep), m, ReplaceAll(y, tok, rep), vars[1..], show);
    }
  }

  /**
   * A placeholder anywhere in the document becomes the text of the FIRST listed variable
   * with that name, and the text on each side is substituted on its own, provided no
   * replacement text can form or break a placeholder.
   */
  lemma {:induction false} TokenReplacedInContext(a: string, b: string, vars: seq<Variable>, k: nat, show: real -> string)
    requires k < |vars| && NamesBraceFree(vars) && ReplacementsInert(vars, show)
    requires forall m :: 0 <= m < k ==> vars[m].name != vars[k].name
    ensures Substitute(a + Token(vars[k].name) + b, vars, show)
         == Substitute(a, vars, show) + show(vars[k].Resolved()) + Substitute(b, vars, show)
  {
    var n := vars[k].name;
    var tok := Token(n);
    var rep := show(vars[k].Resolved());
    var pre, rest, post := vars[..k], vars[k..], vars[k + 1..];
    assert vars == pre + rest;
    assert vars[k] in vars;
    SubstituteAppend(a + tok + b, pre, rest, show);
    SubstituteAppend(a, pre, rest, show);
    SubstituteAppend(b, pre, rest, show);
    forall v | v in pre
      ensures v in vars && v.name != n
    {
      var m :| 0 <= m < k && pre[m] == v;
    }
    SubstituteKeepsUnknownToken(a, n, b, pre, show);
    var pa, pb := Substitute(a, pre, show), Substitute(b, pre, show);
    assert rest[0] == vars[k] && rest[1..] == post;
    ReplaceAllToken(pa, pb, n, rep);
    assert BraceFree(rep) && !OccursAt(n, rep, 0);
    forall v | v in post
      ensures v in vars && !Occurs(v.name, rep)
    {
      var i :| 0 <= i < |post| && post[i] == v;
      assert v == vars[k + 1 + i];
    }
    SubstituteKeepsMiddle(ReplaceAll(pa, tok, rep), rep, ReplaceAll(pb, tok, rep), post, show);
  }

  /** The conditions on a list hold of every prefix of it. */
  lemma PrefixKeepsConditions(vars: seq<Variable>, show: real -> string, j: nat)
    requires j <= |vars| && NamesBraceFree(vars) && ReplacementsInert(vars, show)
    ensures NamesBraceFree(vars[..j]) && ReplacementsInert(vars[..j], show)
  {
    var pre := vars[..j];
    assert forall a :: 0 <= a < |pre| ==> pre[a] == vars[a];
    assert forall v :: v in pre ==> v in vars;
  }

  /** Later substitutions never re-create a token that is absent, when no replacement can complete it. */
  lemma {:induction false} SubstituteKeepsTokenAbsent(t: string, vars: seq<Variable>, show: real -> string, n: string)
    requires BraceFree(n) && NamesBraceFree(vars)
    requires forall j :: 0 <= j < |vars| ==> BraceFree(show(vars[j].Resolved())) && !Occurs(n, show(vars[j].Resolved()))
    requires !Occurs(t, Token(n))
    ensures !Occurs(Substitute(t, vars, show), Token(n))
    decreases |vars|
  {
    if vars != [] {
      assert vars[0] in vars;
      ReplaceAllLeavesNoToken(t, vars[0].name, show(vars[0].Resolved()), n);
      assert forall v :: v in vars[1..] ==> v in vars;
      SubstituteKeepsTokenAbsent(ReplaceAll(t, Token(vars[0].name), show(vars[0].Resolved())), vars[1..], show, n);
    }
  }

  /** When no replacement can form a listed token, no token of any listed variable remains. */
  lemma {:induction false} SubstituteLeavesNoTokens(s: string, vars: seq<Variable>, show: real -> string)
    requires NamesBraceFree(vars) && ReplacementsInert(vars, show)
    ensures forall v :: v in vars ==> !Occurs(Substitute(s, vars, show), Token(v.name))
    decreases |vars|
  {
    if vars != [] {
      var v0 := vars[0];
      var rep := show(v0.Resolved());
      var s1 := ReplaceAll(s, Token(v0.name), rep);
      assert v0 in vars;
      ReplaceAllLeavesNoToken(s, v0.name, rep, v0.name);
      assert forall v :: v in vars[1..] ==> v in vars;
      SubstituteKeepsTokenAbsent(s1, vars[1..], show, v0.name);
      SubstituteLeavesNoTokens(s1, vars[1..], show);
      forall v | v in vars
        ensures !Occurs(Substitute(s, vars, show), Token(v.name))
      {
        if v != v0 {
          assert v in vars[1..];
        }
      }
    }
  }

  /** When no replacement can form a listed token, a later entry that repeats an earlier name has no effect. */
  lemma LaterDuplicateIgnored(s: string, vars: seq<Variable>, show: real -> string, i: nat, j: nat)
    requires i < j < |vars| && vars[i].name == vars[j].name
    requires NamesBraceFree(vars) && ReplacementsInert(vars, show)
    ensures Substitute(s, vars, show) == Substitute(s, vars[..j] + vars[j + 1..], show)
  {
    var pre := vars[..j];
    var t := Substitute(s, pre, show);
    PrefixKeepsConditions(vars, show, j);
    SubstituteLeavesNoTokens(s, pre, show);
    assert pre[i] == vars[i];
    assert !Occurs(t, Token(vars[j].name));
    ReplaceAllAbsent(t, Token(vars[j].name), show(vars[j].Resolved()));
    assert vars == pre + vars[j..];
    SubstituteAppend(s, pre, vars[j..], show);
    SubstituteAppend(s, pre, vars[j + 1..], show);
    assert vars[j..][0] == vars[j] && vars[j..][1..] == vars[j + 1..];
  }

  /**
   * Without the inertness condition a token can survive: in `{a{a5}}`, replacing
   * `{a5}` by `5` produces `{a5}`.
   */
  lemma ResidualTokenExample()
    ensures var v := Variable("a5", 5.0, 0.0, 100.0, 1.0, "slider", 0.1, 0.5, "a5", Some(5.0));
            var out := Substitute("{a{a5}}", [v], x => "5");
            out == "{a5}" && Occurs(out, Token("a5"))
  {
    var v := Variable("a5", 5.0, 0.0, 100.0, 1.0, "slider", 0.1, 0.5, "a5", Some(5.0));
    var tok := Token("a5");
    assert tok == "{a5}";
    assert ReplaceAll("}", tok, "5") == "}";
    assert ReplaceAll("{a5}}", tok, "5") == "5}";
    assert ReplaceAll("a{a5}}", tok, "5") == "a5}";
    assert ReplaceAll("{a{a5}}", tok, "5") == "{a5}";
    assert OccursAt("{a5}", tok, 0);
  }
}
