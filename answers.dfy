/** Answer matching: `answer.trim().toLowerCase() === quiz.answer.trim().toLowerCase()`
    (cmds.js, `testCmd` and `askQuestion`), and the `trim()` that `makeQuestion`
    applies to every reply it reads. */
module Answers {

  /** The code points that `String.prototype.trim` and `parseInt` skip:
      ECMAScript WhiteSpace (TAB, VT, FF, SP, NBSP, ZWNBSP and the Zs category)
      and LineTerminator (LF, CR, LS, PS). */
  predicate IsWhiteSpace(c: char) {
    if c <= ' ' then c == ' ' || '\t' <= c <= '\r'
    else if c < '\U{00A0}' then false
    else
      c == '\U{00A0}' || c == '\U{1680}' || ('\U{2000}' <= c <= '\U{200A}')
      || c == '\U{2028}' || c == '\U{2029}' || c == '\U{202F}' || c == '\U{205F}'
      || c == '\U{3000}' || c == '\U{FEFF}'
  }

  predicate AllWhiteSpace(s: string) {
    forall i :: 0 <= i < |s| ==> IsWhiteSpace(s[i])
  }

  /** `s` with its leading white space removed: a suffix of `s` that does not
      start with white space (TrimStartSplit: what is cut off is all white space). */
  function TrimStart(s: string): (r: string)
    ensures |r| <= |s|
    ensures r == [] || !IsWhiteSpace(r[0])
  {
    if s != [] && IsWhiteSpace(s[0]) then TrimStart(s[1..]) else s
  }

  /** `s` with its trailing white space removed: a prefix of `s` that does not
      end with white space (TrimEndSplit: what is cut off is all white space). */
  function TrimEnd(s: string): (r: string)
    ensures |r| <= |s|
    ensures r == [] || !IsWhiteSpace(r[|r| - 1])
  {
    if s != [] && IsWhiteSpace(s[|s| - 1]) then TrimEnd(s[..|s| - 1]) else s
  }

  /** `TrimEnd` keeps the first character of what it does not cut down to nothing. */
  lemma {:induction false} TrimEndKeepsStart(s: string)
    ensures TrimEnd(s) == [] || TrimEnd(s)[0] == s[0]
  {
    if s != [] && IsWhiteSpace(s[|s| - 1]) {
      TrimEndKeepsStart(s[..|s| - 1]);
    }
  }

  /** Neither end of `t` is white space. */
  predicate Tight(t: string) {
    t == [] || (!IsWhiteSpace(t[0]) && !IsWhiteSpace(t[|t| - 1]))
  }

  /** `String.prototype.trim`: `s` with white space removed from both ends. */
  function Trim(s: string): (r: string)
    ensures Tight(r) && |r| <= |s|
  {
    var t := TrimStart(s);
    var r := TrimEnd(t);
    TrimEndKeepsStart(t);
    r
  }

  /** `String.prototype.toLowerCase` on the Basic Latin and Latin-1 capitals
      (A-Z and U+00C0-U+00DE except U+00D7); every other code point is kept. */
  function LowerChar(c: char): (r: char)
    ensures !('A' <= r <= 'Z')
    ensures 'a' <= c <= 'z' ==> r == c
    ensures IsWhiteSpace(r) <==> IsWhiteSpace(c)
  {
    if 'A' <= c <= 'Z' || ('\U{00C0}' <= c <= '\U{00DE}' && c != '\U{00D7}')
    then (c as int + 32) as char
    else c
  }

  function ToLower(s: string): (r: string)
    ensures |r| == |s|
    ensures forall i :: 0 <= i < |r| ==> !('A' <= r[i] <= 'Z')
    ensures forall i :: 0 <= i < |r| ==> (IsWhiteSpace(r[i]) <==> IsWhiteSpace(s[i]))
  {
    seq(|s|, i requires 0 <= i < |s| => LowerChar(s[i]))
  }

  /** The form in which both the reply and the stored answer are compared. */
  function Normalize(s: string): (r: string)
    ensures |r| <= |s| && Tight(r)
    ensures forall i :: 0 <= i < |r| ==> !('A' <= r[i] <= 'Z')
  {
    ToLower(Trim(s))
  }

  /** The reply `given` is a correct answer to a quiz whose answer is `stored`. */
  predicate Matches(given: string, stored: string)
    ensures Trim(given) == Trim(stored) ==> Matches(given, stored)
    ensures Matches(given, stored) ==> |Trim(given)| == |Trim(stored)|
  {
    Normalize(given) == Normalize(stored)
  }

  // ---------------------------------------------------------------------------
  // Trim

  lemma AllWhiteSpaceConcat(a: string, b: string)
    requires AllWhiteSpace(a) && AllWhiteSpace(b)
    ensures AllWhiteSpace(a + b)
  {
    assert forall k :: |a| <= k < |a + b| ==> (a + b)[k] == b[k - |a|];
  }

  lemma {:induction false} TrimStartSkips(w: string, u: string)
    requires AllWhiteSpace(w) && (u == [] || !IsWhiteSpace(u[0]))
    ensures TrimStart(w + u) == u
  {
    if w != [] {
      assert (w + u)[1..] == w[1..] + u;
      TrimStartSkips(w[1..], u);
    }
  }

  lemma {:induction false} TrimEndSkips(u: string, w: string)
    requires AllWhiteSpace(w) && (u == [] || !IsWhiteSpace(u[|u| - 1]))
    ensures TrimEnd(u + w) == u
  {
    if w != [] {
      assert (u + w)[..|u + w| - 1] == u + w[..|w| - 1];
      TrimEndSkips(u, w[..|w| - 1]);
    }
  }

  /** Trim is determined by its contract: a tight string surrounded by white
      space only is what `trim` returns. */
  lemma TrimUnique(a: string, t: string, b: string)
    requires AllWhiteSpace(a) && AllWhiteSpace(b) && Tight(t)
    ensures Trim(a + t + b) == t
  {
    if t == [] {
      AllWhiteSpaceConcat(a, b);
      assert a + t + b == (a + b) + [];
      TrimStartSkips(a + b, []);
    } else {
      assert a + t + b == a + (t + b);
      TrimStartSkips(a, t + b);
      TrimEndSkips(t, b);
    }
  }

  /** What `TrimStart` cuts off is white space. */
  lemma {:induction false} TrimStartSplit(s: string) returns (a: string)
    ensures AllWhiteSpace(a) && s == a + TrimStart(s)
  {
    if s != [] && IsWhiteSpace(s[0]) {
      var a' := TrimStartSplit(s[1..]);
      a := [s[0]] + a';
      assert s == [s[0]] + s[1..];
    } else {
      a := [];
    }
  }

  /** What `TrimEnd` cuts off is white space. */
  lemma {:induction false} TrimEndSplit(s: string) returns (b: string)
    ensures AllWhiteSpace(b) && s == TrimEnd(s) + b
  {
    if s != [] && IsWhiteSpace(s[|s| - 1]) {
      var b' := TrimEndSplit(s[..|s| - 1]);
      b := b' + [s[|s| - 1]];
      assert s == s[..|s| - 1] + [s[|s| - 1]];
    } else {
      b := [];
    }
  }

  /** `Trim(s)` is what is left of `s` once white space is cut from both ends. */
  lemma TrimSplit(s: string) returns (a: string, b: string)
    ensures AllWhiteSpace(a) && AllWhiteSpace(b) && s == a + Trim(s) + b
  {
    a := TrimStartSplit(s);
    b := TrimEndSplit(TrimStart(s));
  }

  /** `trim` is idempotent: the second trim in `testCmd` and `askQuestion`,
      after the one in `makeQuestion`, changes nothing. */
  lemma TrimIdempotent(s: string)
    ensures Trim(Trim(s)) == Trim(s)
  {
    var t := Trim(s);
    assert [] + t + [] == t;
    TrimUnique([], t, []);
  }

  /** White space added around a string is removed again by `trim`. */
  lemma TrimPadding(a: string, s: string, b: string)
    requires AllWhiteSpace(a) && AllWhiteSpace(b)
    ensures Trim(a + s + b) == Trim(s)
  {
    var t := Trim(s);
    var a', b' := TrimSplit(s);
    AllWhiteSpaceConcat(a, a');
    AllWhiteSpaceConcat(b', b);
    calc {
      a + s + b;
      a + (a' + t + b') + b;
      (a + a') + t + (b' + b);
    }
    TrimUnique(a + a', t, b' + b);
  }

  // ---------------------------------------------------------------------------
  // toLowerCase

  lemma LowerCharKeepsWhiteSpace(c: char)
    ensures IsWhiteSpace(LowerChar(c)) == IsWhiteSpace(c)
  {
  }

  lemma ToLowerConcat(x: string, y: string)
    ensures ToLower(x + y) == ToLower(x) + ToLower(y)
  {
  }

  lemma ToLowerKeepsWhiteSpace(s: string)
    ensures forall k :: 0 <= k < |s| ==> IsWhiteSpace(ToLower(s)[k]) == IsWhiteSpace(s[k])
  {
    forall k | 0 <= k < |s| ensures IsWhiteSpace(ToLower(s)[k]) == IsWhiteSpace(s[k]) {
      LowerCharKeepsWhiteSpace(s[k]);
    }
  }

  /** Lowercasing commutes with trimming, since it maps white space to white
      space and everything else to non-white space. */
  lemma TrimToLower(s: string)
    ensures Trim(ToLower(s)) == ToLower(Trim(s))
  {
    var t := Trim(s);
    var a, b := TrimSplit(s);
    ToLowerConcat(a + t, b);
    ToLowerConcat(a, t);
    ToLowerKeepsWhiteSpace(a);
    ToLowerKeepsWhiteSpace(t);
    ToLowerKeepsWhiteSpace(b);
    TrimUnique(ToLower(a), ToLower(t), ToLower(b));
  }

  lemma ToLowerIdempotent(s: string)
    ensures ToLower(ToLower(s)) == ToLower(s)
  {
  }

  // ---------------------------------------------------------------------------
  // Matching

  /** Matching is an equivalence: reflexive, symmetric and transitive. */
  lemma MatchesEquivalence(a: string, b: string, c: string)
    ensures Matches(a, a)
    ensures Matches(a, b) == Matches(b, a)
    ensures Matches(a, b) && Matches(b, c) ==> Matches(a, c)
  {
  }

  /** Normalizing twice is normalizing once, so a normalized reply matches its original. */
  lemma NormalizeIdempotent(s: string)
    ensures Normalize(Normalize(s)) == Normalize(s)
  {
    var t := Trim(s);
    TrimIdempotent(s);
    TrimToLower(t);
    ToLowerIdempotent(t);
  }

  /** White space around the reply (or the stored answer) never decides a match. */
  lemma MatchesIgnoresPadding(a: string, b: string, pre: string, post: string)
    requires AllWhiteSpace(pre) && AllWhiteSpace(post)
    ensures Matches(pre + a + post, b) == Matches(a, b)
    ensures Matches(b, pre + a + post) == Matches(b, a)
  {
    TrimPadding(pre, a, post);
  }

  /** Case never decides a match: two replies that agree once lowercased are
      equally right or wrong. */
  lemma MatchesIgnoresCase(a: string, a': string, b: string)
    requires ToLower(a) == ToLower(a')
    ensures Matches(a, b) == Matches(a', b)
  {
    TrimToLower(a);
    TrimToLower(a');
  }

  /** The reply was already trimmed by `makeQuestion`; that does not change the verdict. */
  lemma MatchesTrimmedReply(reply: string, stored: string)
    ensures Matches(Trim(reply), stored) == Matches(reply, stored)
  {
    TrimIdempotent(reply);
  }

  /** A string without white space at either end is its own trim. */
  lemma TrimTight(s: string)
    requires Tight(s)
    ensures Trim(s) == s
  {
    assert s == [] + s + [];
    TrimUnique([], s, []);
  }

  /** A string without white space at either end is normalized by lowering it. */
  lemma NormalizeTight(s: string)
    requires Tight(s)
    ensures Normalize(s) == ToLower(s)
  {
    TrimTight(s);
  }

  /** " paris " matches the stored answer "Paris". */
  lemma MatchesPaddedExample()
    ensures Matches(" paris ", "Paris")
  {
    var given, word, pad := " paris ", "paris", " ";
    assert Normalize(given) == ToLower(word) by {
      assert given == pad + word + pad;
      assert AllWhiteSpace(pad) && Tight(word);
      TrimUnique(pad, word, pad);
    }
    assert Normalize("Paris") == ToLower("Paris") by {
      NormalizeTight("Paris");
    }
    assert ToLower(word) == ToLower("Paris");
  }

  /** "PARIS" matches the stored answer "Paris". */
  lemma MatchesUpperCaseExample()
    ensures Matches("PARIS", "Paris")
  {
    var given, stored := "PARIS", "Paris";
    NormalizeTight(stored);
    NormalizeTight(given);
    assert ToLower(given) == ToLower(stored);
  }

  /** "Lyon" does not match the stored answer "Paris". */
  lemma MatchesWrongExample()
    ensures !Matches("Lyon", "Paris")
  {
    var given, stored := "Lyon", "Paris";
    NormalizeTight(stored);
    NormalizeTight(given);
    assert ToLower(given)[0] != ToLower(stored)[0];
  }
}
