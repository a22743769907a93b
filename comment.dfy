/** The comment of comment.rb: a value holding its `body`, and the
    `@mention` names found in that body.

    `mentions` splits the body on runs of whitespace, keeps the words whose
    first character is the sigil `@`, and maps each kept word to the first
    field of the rest of the word (the word without its sigil) split on runs
    of non-word characters. Ruby's `first` of an empty array is nil, so each
    result element is an `Option<string>`.
 */
module Comments {
  import opened RubySplit

  /** A Ruby value that may be nil. */
  datatype Option<T> = None | Some(value: T)

  /** Ruby's `Array#first`: nil for the empty array. */
  function First<T>(xs: seq<T>): Option<T> {
    if xs == [] then None else Some(xs[0])
  }

  /** `word[0] == "@"`: `word[0]` is nil for the empty word, and nil is not "@". */
  predicate StartsWithSigil(word: string) {
    |word| > 0 && word[0] == '@'
  }

  /** `keep_if { |word| word[0] == "@" }`: the words that start with the sigil. */
  function KeepIf(words: seq<string>): (r: seq<string>)
    ensures |r| <= |words|
    ensures forall j :: 0 <= j < |r| ==> StartsWithSigil(r[j])
  {
    if words == [] then []
    else if StartsWithSigil(words[0]) then [words[0]] + KeepIf(words[1..])
    else KeepIf(words[1..])
  }

  /** The positions in `words` of the words that start with the sigil, in
      increasing order. */
  function SigilPositions(words: seq<string>): (idx: seq<nat>)
    ensures |idx| == |KeepIf(words)|
    ensures forall j :: 0 <= j < |idx| ==> idx[j] < |words|
  {
    if words == [] then []
    else
      var shifted := Shifted(SigilPositions(words[1..]));
      if StartsWithSigil(words[0]) then [0] + shifted else shifted
  }

  /** The j-th word `keep_if` keeps is the word at the j-th listed position. */
  lemma {:induction false} SigilPositionsMatch(words: seq<string>)
    ensures forall j :: 0 <= j < |SigilPositions(words)| ==> KeepIf(words)[j] == words[SigilPositions(words)[j]]
  {
    if words != [] {
      var tail := SigilPositions(words[1..]);
      var shifted := Shifted(tail);
      SigilPositionsMatch(words[1..]);
      forall j | 0 <= j < |tail| ensures KeepIf(words[1..])[j] == words[shifted[j]] {
        assert words[1..][tail[j]] == words[shifted[j]];
      }
    }
  }

  /** The listed positions strictly increase, so `keep_if` keeps the order of the words. */
  lemma {:induction false} SigilPositionsIncrease(words: seq<string>)
    ensures forall j, j' :: 0 <= j < j' < |SigilPositions(words)| ==> SigilPositions(words)[j] < SigilPositions(words)[j']
  {
    if words != [] {
      var tail := SigilPositions(words[1..]);
      var shifted := Shifted(tail);
      var idx := SigilPositions(words);
      SigilPositionsIncrease(words[1..]);
      forall j, j' | 0 <= j < j' < |idx| ensures idx[j] < idx[j'] {
        if StartsWithSigil(words[0]) {
          assert idx[j'] == shifted[j' - 1];
          if j > 0 {
            assert idx[j] == shifted[j - 1];
          }
        }
      }
    }
  }

  /** Every word that starts with the sigil has its position listed, so
      `keep_if` drops no sigil word. */
  lemma {:induction false} SigilPositionsComplete(words: seq<string>)
    ensures forall i :: 0 <= i < |words| && StartsWithSigil(words[i]) ==> i in SigilPositions(words)
  {
    if words != [] {
      var tail := SigilPositions(words[1..]);
      var shifted := Shifted(tail);
      SigilPositionsComplete(words[1..]);
      forall i | 1 <= i < |words| && StartsWithSigil(words[i]) ensures i in shifted {
        assert words[i] == words[1..][i - 1];
        assert i - 1 in tail;
        var j :| 0 <= j < |tail| && tail[j] == i - 1;
        assert shifted[j] == i;
      }
    }
  }

  /** Every position moved one place to the right. */
  function Shifted(xs: seq<nat>): seq<nat> {
    seq(|xs|, j requires 0 <= j < |xs| => xs[j] + 1)
  }

  /** `word = word[1, word.length]; word.split(/\W+/).first` for a word that
      starts with the sigil: nil when no word character follows the sigil,
      otherwise the leading run of word characters after the sigil (empty
      when the character right after the sigil is not a word character). */
  function MentionName(word: string): (r: Option<string>)
    requires StartsWithSigil(word)
    ensures r.None? <==> forall i :: 1 <= i < |word| ==> !IsWord(word[i])
    ensures r.Some? ==> r.value <= word[1..]
    ensures r.Some? ==> forall i :: 0 <= i < |r.value| ==> IsWord(r.value[i])
    ensures r.Some? ==> |r.value| == |word| - 1 || !IsWord(word[|r.value| + 1])
  {
    var rest := word[1..];
    SplitFirst(NonWords, rest);
    SpanSpec(NonWords, rest);
    assert forall i :: 1 <= i < |word| ==> word[i] == rest[i - 1];
    First(Split(NonWords, rest))
  }

  /** A sigil followed by a run of word characters and then a non-word
      character (or nothing) names exactly that run: `@alice,` names `alice`. */
  lemma MentionNameOfRun(name: string, tail: string)
    requires name != [] && forall i :: 0 <= i < |name| ==> IsWord(name[i])
    requires tail == [] || !IsWord(tail[0])
    ensures MentionName(['@'] + name + tail) == Some(name)
  {
    var w := ['@'] + name + tail;
    assert w[1] == name[0];
    assert forall i :: 0 <= i < |name| ==> w[i + 1] == name[i];
    assert tail != [] ==> w[|name| + 1] == tail[0];
    var v := MentionName(w).value;
    assert v == w[1..][..|v|];
    assert |v| == |name|;
    assert w[1..][..|name|] == name;
  }

  /** A sigil followed by a non-word character names the empty string when a
      word character comes later in the word (`@!bob`, `@@bob`), and nil when
      none does (`@!!`); a lone sigil is nil too. */
  lemma MentionNameEmpty(word: string)
    requires StartsWithSigil(word)
    ensures MentionName(word) == Some([])
        <==> |word| > 1 && !IsWord(word[1]) && exists i :: 2 <= i < |word| && IsWord(word[i])
  {
    var r := MentionName(word);
    if r.Some? && r.value != [] {
      assert IsWord(r.value[0]) && r.value[0] == word[1];
    }
  }

  /** Ruby's `map` of `MentionName` over the kept words. */
  function Names(words: seq<string>): seq<Option<string>>
    requires forall j :: 0 <= j < |words| ==> StartsWithSigil(words[j])
  {
    seq(|words|, i requires 0 <= i < |words| => MentionName(words[i]))
  }

  /** `class Comment` with its `body` reader; `body` is set once, at construction. */
  datatype Comment = Comment(body: string) {

    /** `mentions`: one entry per whitespace-delimited word of the body that
        starts with the sigil, and never more entries than the body has words;
        every name it finds is made of word characters only. */
    function Mentions(): (r: seq<Option<string>>)
      ensures |r| <= |Tokens(Spaces, body)|
      ensures forall i :: 0 <= i < |r| && r[i].Some? ==> forall c :: c in r[i].value ==> IsWord(c)
    {
      KeepIfSplit(body);
      Names(KeepIf(Split(Spaces, body)))
    }
  }

  /** The leading empty field of a split never starts with the sigil, so
      `keep_if` sees the same words as in the token list. */
  lemma KeepIfSplit(s: string)
    ensures KeepIf(Split(Spaces, s)) == KeepIf(Tokens(Spaces, s))
  {
    SplitTokens(Spaces, s);
  }

  /** `keep_if` keeps nothing of words none of which starts with the sigil. */
  lemma {:induction false} KeepIfNone(words: seq<string>)
    requires forall i :: 0 <= i < |words| ==> !StartsWithSigil(words[i])
    ensures KeepIf(words) == []
  {
    if words != [] {
      KeepIfNone(words[1..]);
    }
  }

  /** `keep_if` distributes over concatenation. */
  lemma {:induction false} KeepIfAppend(x: seq<string>, y: seq<string>)
    ensures KeepIf(x + y) == KeepIf(x) + KeepIf(y)
    decreases |x|
  {
    if x == [] {
      assert x + y == y;
    } else {
      assert (x + y)[0] == x[0] && (x + y)[1..] == x[1..] + y;
      KeepIfAppend(x[1..], y);
      ConcatAssoc([x[0]], KeepIf(x[1..]), KeepIf(y));
    }
  }

  /** The entries of `mentions` follow the sigil words of the body one for
      one and in order: with `idx` the increasing positions of all sigil words
      among the whitespace-delimited words, the j-th entry is the name in the
      word at position `idx[j]`. */
  lemma MentionsInOrder(c: Comment)
    ensures var ts := Tokens(Spaces, c.body);
            var idx := SigilPositions(ts);
            |c.Mentions()| == |idx| &&
            (forall j :: 0 <= j < |idx| ==>
               StartsWithSigil(ts[idx[j]]) && c.Mentions()[j] == MentionName(ts[idx[j]])) &&
            (forall j, j' :: 0 <= j < j' < |idx| ==> idx[j] < idx[j']) &&
            (forall i :: 0 <= i < |ts| && StartsWithSigil(ts[i]) ==> i in idx)
  {
    var ts := Tokens(Spaces, c.body);
    KeepIfSplit(c.body);
    SigilPositionsMatch(ts);
    SigilPositionsIncrease(ts);
    SigilPositionsComplete(ts);
  }

  /** A body without the sigil character has no mentions. */
  lemma NoSigilNoMentions(c: Comment)
    requires '@' !in c.body
    ensures c.Mentions() == []
  {
    var ts := Tokens(Spaces, c.body);
    TokensAvoid(Spaces, c.body, '@');
    KeepIfSplit(c.body);
    forall i | 0 <= i < |ts| ensures !StartsWithSigil(ts[i]) {
      assert |ts[i]| == 0 || ts[i][0] in ts[i];
    }
    KeepIfNone(ts);
  }

  /** An empty or all-whitespace body has no mentions. */
  lemma BlankNoMentions(c: Comment)
    requires forall i :: 0 <= i < |c.body| ==> IsSpace(c.body[i])
    ensures c.Mentions() == []
  {
    TokensEmpty(Spaces, c.body);
    KeepIfSplit(c.body);
  }

  /** Joining two bodies with a whitespace character joins their mentions. */
  lemma MentionsConcat(a: string, sp: char, b: string)
    requires IsSpace(sp)
    ensures Comment(a + [sp] + b).Mentions() == Comment(a).Mentions() + Comment(b).Mentions()
  {
    var x := KeepIf(Tokens(Spaces, a));
    var y := KeepIf(Tokens(Spaces, b));
    assert KeepIf(Split(Spaces, a + [sp] + b)) == x + y by {
      TokensConcat(Spaces, a, sp, b);
      KeepIfSplit(a + [sp] + b);
      KeepIfAppend(Tokens(Spaces, a), Tokens(Spaces, b));
    }
    KeepIfSplit(a);
    KeepIfSplit(b);
    NamesAppend(x, y);
  }

  /** `map` distributes over concatenation. */
  lemma NamesAppend(x: seq<string>, y: seq<string>)
    requires forall j :: 0 <= j < |x| ==> StartsWithSigil(x[j])
    requires forall j :: 0 <= j < |y| ==> StartsWithSigil(y[j])
    ensures forall j :: 0 <= j < |x + y| ==> StartsWithSigil((x + y)[j])
    ensures Names(x + y) == Names(x) + Names(y)
  {
    assert forall i :: 0 <= i < |x| ==> (x + y)[i] == x[i];
    assert forall i :: |x| <= i < |x + y| ==> (x + y)[i] == y[i - |x|];
  }

  /** Mentions are not deduplicated: a body repeated after a space yields
      its mentions twice. */
  lemma DuplicatesKept(s: string)
    ensures Comment(s + " " + s).Mentions() == Comment(s).Mentions() + Comment(s).Mentions()
  {
    MentionsConcat(s, ' ', s);
  }
}
