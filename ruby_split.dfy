/** Ruby's ASCII character classes `\s` and `\w`, and `String#split` with a
    regular-expression separator made of one or more characters of one class
    (`/\s+/` or `/\W+/`).

    `String#split` with such a pattern and no limit cuts the string at every
    maximal run of separator characters, keeps a leading empty field when the
    string starts with a separator, and drops every trailing empty field; so
    the empty string, and a string made only of separators, split into `[]`.
 */
module RubySplit {

  /** Ruby's `\s`: space, tab, line feed, vertical tab, form feed, carriage return. */
  predicate IsSpace(c: char) {
    c == ' ' || ('\t' <= c <= '\r')
  }

  /** Ruby's `\w`: ASCII letters, ASCII digits and underscore. */
  predicate IsWord(c: char) {
    ('a' <= c <= 'z') || ('A' <= c <= 'Z') || ('0' <= c <= '9') || c == '_'
  }

  /** The separator pattern of a split: `/\s+/` or `/\W+/`. */
  datatype Separator = Spaces | NonWords

  predicate IsSep(k: Separator, c: char) {
    match k
    case Spaces => IsSpace(c)
    case NonWords => !IsWord(c)
  }

  predicate NoSep(k: Separator, s: string) {
    forall i :: 0 <= i < |s| ==> !IsSep(k, s[i])
  }

  predicate AllSep(k: Separator, s: string) {
    forall i :: 0 <= i < |s| ==> IsSep(k, s[i])
  }

  /** The leading run of non-separator characters of `s` (SpanSpec says it is
      the longest one). */
  function Span(k: Separator, s: string): (w: string)
    ensures |w| <= |s|
    ensures |w| < |s| ==> IsSep(k, s[|w|])
  {
    if s == [] || IsSep(k, s[0]) then [] else [s[0]] + Span(k, s[1..])
  }

  /** `s` without its leading run of separator characters. */
  function SkipSeps(k: Separator, s: string): (t: string)
    ensures |t| <= |s|
    ensures t == [] || !IsSep(k, t[0])
    ensures s != [] && IsSep(k, s[0]) ==> |t| < |s|
  {
    if s != [] && IsSep(k, s[0]) then SkipSeps(k, s[1..]) else s
  }

  /** Every field of `s` between maximal runs of separators: a leading empty
      field when `s` starts with a separator, a trailing one when it ends with
      one, and the single field "" for the empty string. */
  function Fields(k: Separator, s: string): (fs: seq<string>)
    ensures |fs| >= 1 && fs[0] == Span(k, s)
    decreases |s|
  {
    var w := Span(k, s);
    if |w| == |s| then [w] else [w] + Fields(k, SkipSeps(k, s[|w|..]))
  }

  /** `fs` without its trailing empty fields. */
  function DropTrailingEmpty(fs: seq<string>): (r: seq<string>)
    ensures r <= fs
    ensures r == [] || r[|r| - 1] != []
    ensures forall i :: |r| <= i < |fs| ==> fs[i] == []
  {
    if fs == [] || fs[|fs| - 1] != [] then fs else DropTrailingEmpty(fs[..|fs| - 1])
  }

  /** Ruby's `s.split(/\s+/)` (k = Spaces) and `s.split(/\W+/)` (k = NonWords);
      SplitTokens and SplitFirst say what it yields. */
  function Split(k: Separator, s: string): seq<string> {
    DropTrailingEmpty(Fields(k, s))
  }

  /** The tokens of `s`: its maximal non-empty runs of non-separator
      characters, in the order they occur. This is the reference definition
      `Split` is compared with. */
  function Tokens(k: Separator, s: string): (ts: seq<string>)
    decreases |s|
  {
    var t := SkipSeps(k, s);
    if t == [] then []
    else
      var w := Span(k, t);
      [w] + Tokens(k, t[|w|..])
  }

  /** `Span` is a prefix of `s` free of separators; with the maximality in its
      contract it is the longest such prefix. */
  lemma {:induction false} SpanSpec(k: Separator, s: string)
    ensures Span(k, s) == s[..|Span(k, s)|]
    ensures NoSep(k, Span(k, s))
    decreases |s|
  {
    if s != [] && !IsSep(k, s[0]) {
      SpanSpec(k, s[1..]);
      var w := Span(k, s[1..]);
      assert Span(k, s) == [s[0]] + w;
      assert s[..|w| + 1] == [s[0]] + s[1..][..|w|];
    }
  }

  /** `SkipSeps` drops a prefix of `s` made only of separators. */
  lemma {:induction false} SkipSepsSpec(k: Separator, s: string)
    ensures SkipSeps(k, s) == s[|s| - |SkipSeps(k, s)|..]
    ensures AllSep(k, s[..|s| - |SkipSeps(k, s)|])
    decreases |s|
  {
    if s != [] && IsSep(k, s[0]) {
      SkipSepsSpec(k, s[1..]);
      var t := SkipSeps(k, s[1..]);
      var n := |s| - |t|;
      assert s[1..][|s| - 1 - |t|..] == s[n..];
      forall i | 0 <= i < n ensures IsSep(k, s[..n][i]) {
        if i > 0 {
          assert s[..n][i] == s[1..][..n - 1][i - 1];
        }
      }
    }
  }

  /** Every token is non-empty and holds no separator character. */
  lemma {:induction false} TokensWellFormed(k: Separator, s: string)
    ensures forall i :: 0 <= i < |Tokens(k, s)| ==> Tokens(k, s)[i] != [] && NoSep(k, Tokens(k, s)[i])
    decreases |s|
  {
    var t := SkipSeps(k, s);
    if t != [] {
      var w := Span(k, t);
      var rest := t[|w|..];
      var ts := Tokens(k, rest);
      SpanSpec(k, t);
      TokensWellFormed(k, rest);
      assert Tokens(k, s) == [w] + ts;
      forall i | 0 <= i < |Tokens(k, s)|
        ensures Tokens(k, s)[i] != [] && NoSep(k, Tokens(k, s)[i])
      {
        if i > 0 {
          assert Tokens(k, s)[i] == ts[i - 1];
        }
      }
    }
  }

  /** A character absent from `s` is absent from every token of `s`. */
  lemma {:induction false} TokensAvoid(k: Separator, s: string, c: char)
    requires c !in s
    ensures forall i :: 0 <= i < |Tokens(k, s)| ==> c !in Tokens(k, s)[i]
    decreases |s|
  {
    var t := SkipSeps(k, s);
    if t != [] {
      var w := Span(k, t);
      var rest := t[|w|..];
      SkipSepsSpec(k, s);
      SpanSpec(k, t);
      forall j | 0 <= j < |t| ensures t[j] != c {
        assert t[j] == s[|s| - |t| + j];
      }
      forall j | 0 <= j < |w| ensures w[j] != c {
        assert w[j] == t[j];
      }
      forall j | 0 <= j < |rest| ensures rest[j] != c {
        assert rest[j] == t[|w| + j];
      }
      TokensAvoid(k, rest, c);
      var ts := Tokens(k, rest);
      assert Tokens(k, s) == [w] + ts;
      forall i | 0 <= i < |Tokens(k, s)|
        ensures c !in Tokens(k, s)[i]
      {
        if i > 0 {
          assert Tokens(k, s)[i] == ts[i - 1];
        }
      }
    }
  }

  /** A string has no tokens exactly when it consists only of separators. */
  lemma TokensEmpty(k: Separator, s: string)
    ensures Tokens(k, s) == [] <==> AllSep(k, s)
  {
    var t := SkipSeps(k, s);
    SkipSepsSpec(k, s);
    if t == [] {
      assert s[..|s|] == s;
    } else {
      assert s[|s| - |t|] == t[0];
    }
  }

  /** Dropping trailing empty fields after a first field `e`. */
  lemma {:induction false} DropTrailingEmptyCons(e: string, xs: seq<string>)
    ensures DropTrailingEmpty([e] + xs)
         == if e == [] && DropTrailingEmpty(xs) == [] then [] else [e] + DropTrailingEmpty(xs)
    decreases |xs|
  {
    if xs != [] && xs[|xs| - 1] == [] {
      var ys := xs[..|xs| - 1];
      assert ([e] + xs)[..|xs|] == [e] + ys;
      DropTrailingEmptyCons(e, ys);
    }
  }

  /** Split of a string that does not start with a separator: exactly its tokens. */
  lemma {:induction false} SplitFromNonSep(k: Separator, t: string)
    requires t == [] || !IsSep(k, t[0])
    ensures DropTrailingEmpty(Fields(k, t)) == Tokens(k, t)
    decreases |t|
  {
    if t != [] {
      var w := Span(k, t);
      if |w| < |t| {
        var u := SkipSeps(k, t[|w|..]);
        assert Fields(k, t) == [w] + Fields(k, u);
        DropTrailingEmptyCons(w, Fields(k, u));
        SplitFromNonSep(k, u);
        assert Tokens(k, t) == [w] + Tokens(k, u);
      }
    }
  }

  /** Ruby's split by a one-class separator yields the tokens of `s`, preceded
      by one empty field exactly when `s` starts with a separator and holds
      at least one token. */
  lemma {:induction false} SplitTokens(k: Separator, s: string)
    ensures Split(k, s)
         == if s != [] && IsSep(k, s[0]) && Tokens(k, s) != [] then [[]] + Tokens(k, s) else Tokens(k, s)
  {
    if s == [] || !IsSep(k, s[0]) {
      SplitFromNonSep(k, s);
    } else {
      var u := SkipSeps(k, s);
      assert Span(k, s) == [];
      assert s[0..] == s;
      assert Fields(k, s) == [[]] + Fields(k, u);
      DropTrailingEmptyCons([], Fields(k, u));
      SplitFromNonSep(k, u);
      assert Tokens(k, s) == Tokens(k, u);
    }
  }

  /** The first field of a split is the leading run of non-separator
      characters (empty when `s` starts with a separator), and the split is
      empty exactly when `s` consists only of separators. */
  lemma SplitFirst(k: Separator, s: string)
    ensures Split(k, s) == [] <==> AllSep(k, s)
    ensures Split(k, s) != [] ==> Split(k, s)[0] == Span(k, s)
  {
    SplitTokens(k, s);
    TokensEmpty(k, s);
  }

  /** Leading separators of `x + y`. */
  lemma {:induction false} SkipSepsConcat(k: Separator, x: string, y: string)
    ensures SkipSeps(k, x + y) == if AllSep(k, x) then SkipSeps(k, y) else SkipSeps(k, x) + y
    decreases |x|
  {
    if x != [] && IsSep(k, x[0]) {
      assert (x + y)[1..] == x[1..] + y;
      assert AllSep(k, x) <==> AllSep(k, x[1..]) by {
        assert forall i :: 0 < i < |x| ==> x[i] == x[1..][i - 1];
      }
      SkipSepsConcat(k, x[1..], y);
    } else if x != [] {
      assert (x + y)[0] == x[0];
      assert !AllSep(k, x);
    } else {
      assert x + y == y;
    }
  }

  /** The run before a separator `c` does not look past it. */
  lemma {:induction false} SpanBeforeSep(k: Separator, x: string, c: char, y: string)
    requires IsSep(k, c)
    ensures Span(k, x + [c] + y) == Span(k, x)
    decreases |x|
  {
    if x != [] {
      assert (x + [c] + y)[1..] == x[1..] + [c] + y;
      SpanBeforeSep(k, x[1..], c, y);
    } else {
      assert (x + [c] + y)[0] == c;
    }
  }

  /** Leading separators do not change the tokens. */
  lemma TokensSkip(k: Separator, s: string)
    ensures Tokens(k, s) == Tokens(k, SkipSeps(k, s))
  {
    var t := SkipSeps(k, s);
    assert SkipSeps(k, t) == t;
  }

  /** The first token of a string that starts with a non-separator is its leading run. */
  lemma TokensCons(k: Separator, t: string)
    requires t != [] && !IsSep(k, t[0])
    ensures Tokens(k, t) == [Span(k, t)] + Tokens(k, t[|Span(k, t)|..])
  {
    assert SkipSeps(k, t) == t;
  }

  /** Joining two strings with a separator character joins their token lists. */
  lemma {:induction false} TokensConcat(k: Separator, a: string, c: char, b: string)
    requires IsSep(k, c)
    ensures Tokens(k, a + [c] + b) == Tokens(k, a) + Tokens(k, b)
    decreases |a|, 1
  {
    if AllSep(k, a) {
      var s := a + [c] + b;
      assert SkipSeps(k, s) == SkipSeps(k, b) by {
        assert s == (a + [c]) + b;
        assert AllSep(k, a + [c]);
        SkipSepsConcat(k, a + [c], b);
      }
      TokensSkip(k, s);
      TokensSkip(k, b);
      TokensEmpty(k, a);
    } else {
      TokensConcatStep(k, a, c, b);
    }
  }

  lemma {:induction false} TokensConcatStep(k: Separator, a: string, c: char, b: string)
    requires IsSep(k, c) && !AllSep(k, a)
    ensures Tokens(k, a + [c] + b) == Tokens(k, a) + Tokens(k, b)
    decreases |a|, 0
  {
    var a' := SkipSeps(k, a);
    SkipSepsJoin(k, a, c, b);
    TokensSkip(k, a + [c] + b);
    TokensJoinHead(k, a', c, b);
    var rest := a'[|Span(k, a')|..];
    TokensSkip(k, a);
    TokensCons(k, a');
    TokensConcat(k, rest, c, b);
    ConcatAssoc([Span(k, a')], Tokens(k, rest), Tokens(k, b));
  }

  /** Leading separators of `a + [c] + b` when `a` holds a non-separator. */
  lemma {:induction false} SkipSepsJoin(k: Separator, a: string, c: char, b: string)
    requires !AllSep(k, a)
    ensures SkipSeps(k, a) != [] && SkipSeps(k, a + [c] + b) == SkipSeps(k, a) + [c] + b
  {
    TokensEmpty(k, a);
    assert a + [c] + b == (a + [c]) + b;
    var i :| 0 <= i < |a| && !IsSep(k, a[i]);
    assert (a + [c])[i] == a[i];
    SkipSepsConcat(k, a + [c], b);
    SkipSepsConcat(k, a, [c]);
  }

  /** The first token of `t + [c] + b` for a separator `c` lies inside `t`. */
  lemma {:induction false} TokensJoinHead(k: Separator, t: string, c: char, b: string)
    requires t != [] && !IsSep(k, t[0]) && IsSep(k, c)
    ensures Tokens(k, t + [c] + b) == [Span(k, t)] + Tokens(k, t[|Span(k, t)|..] + [c] + b)
  {
    var w := Span(k, t);
    var u := t + [c] + b;
    assert u[0] == t[0];
    SpanBeforeSep(k, t, c, b);
    TokensCons(k, u);
    assert u == t + ([c] + b);
    DropConcat(t, [c] + b, |w|);
    ConcatAssoc(t[|w|..], [c], b);
  }

  /** Ruby's `words.join(" ")`. */
  function JoinWithSpace(words: seq<string>): string {
    if words == [] then []
    else if |words| == 1 then words[0]
    else words[0] + [' '] + JoinWithSpace(words[1..])
  }

  /** A single non-empty run of non-separator characters is one token. */
  lemma TokensOfWord(k: Separator, w: string)
    requires w != [] && NoSep(k, w)
    ensures Tokens(k, w) == [w]
  {
    assert SkipSeps(k, w) == w;
    SpanSpec(k, w);
    assert |Span(k, w)| == |w|;
    assert w[..|w|] == w;
    assert w[|w|..] == [];
  }

  /** Joining whitespace-free, non-empty words with spaces and splitting the
      result on `/\s+/` gives the words back. */
  lemma {:induction false} SplitJoin(words: seq<string>)
    requires forall i :: 0 <= i < |words| ==> words[i] != [] && NoSep(Spaces, words[i])
    ensures Split(Spaces, JoinWithSpace(words)) == words
  {
    TokensJoin(words);
    SplitTokens(Spaces, JoinWithSpace(words));
    if words != [] {
      assert JoinWithSpace(words)[0] == words[0][0];
    }
  }

  lemma {:induction false} TokensJoin(words: seq<string>)
    requires forall i :: 0 <= i < |words| ==> words[i] != [] && NoSep(Spaces, words[i])
    ensures Tokens(Spaces, JoinWithSpace(words)) == words
  {
    if |words| == 1 {
      TokensOfWord(Spaces, words[0]);
    } else if |words| > 1 {
      TokensOfWord(Spaces, words[0]);
      TokensJoin(words[1..]);
      TokensConcat(Spaces, words[0], ' ', JoinWithSpace(words[1..]));
    }
  }

  /** Sequence identities used by the proofs above. */
  lemma ConcatAssoc<T>(x: seq<T>, y: seq<T>, z: seq<T>)
    ensures x + (y + z) == (x + y) + z
  {
  }

  lemma DropConcat<T>(x: seq<T>, y: seq<T>, n: nat)
    requires n <= |x|
    ensures (x + y)[n..] == x[n..] + y
  {
  }
}
