/** The behaviour the step definitions of features/step_defs.rb check: a
    comment is written with a given body, and its mentions must include the
    given user names; plus the edge cases of a sigil not followed by a word
    character. */
module CommentScenarios {
  import opened RubySplit
  import opened Comments

  /** A body made of whitespace-free words joined by single spaces mentions
      the names in its sigil words, in order. */
  lemma MentionsOfJoin(words: seq<string>)
    requires forall i :: 0 <= i < |words| ==> words[i] != [] && NoSep(Spaces, words[i])
    ensures Comment(JoinWithSpace(words)).Mentions() == Names(KeepIf(words))
  {
    SplitJoin(words);
  }

  /** The step definitions' check: in a body of space-separated words, a
      word made of the sigil, a user name of word characters and optionally
      trailing punctuation (`@alice`, `@dave!`, `@carol,`) puts that user name
      among the mentions, at the place of the word among the sigil words. */
  lemma MentionsInclude(words: seq<string>, i: nat, name: string, tail: string)
    requires forall j :: 0 <= j < |words| ==> words[j] != [] && NoSep(Spaces, words[j])
    requires i < |words| && words[i] == ['@'] + name + tail
    requires name != [] && forall j :: 0 <= j < |name| ==> IsWord(name[j])
    requires tail == [] || !IsWord(tail[0])
    ensures Some(name) in Comment(JoinWithSpace(words)).Mentions()
  {
    var idx := SigilPositions(words);
    var kept := KeepIf(words);
    assert StartsWithSigil(words[i]);
    assert exists j :: 0 <= j < |idx| && idx[j] == i by {
      SigilPositionsComplete(words);
    }
    var j :| 0 <= j < |idx| && idx[j] == i;
    assert kept[j] == words[i] by {
      SigilPositionsMatch(words);
    }
    MentionNameOfRun(name, tail);
    assert Names(kept)[j] == Some(name);
    MentionsOfJoin(words);
  }

  /** "no mentions here" mentions nobody. */
  lemma MentionsNone()
    ensures Comment("no mentions here").Mentions() == []
  {
    NoSigilNoMentions(Comment("no mentions here"));
  }

  /** A lone sigil gives one nil entry. */
  lemma MentionsLoneSigil()
    ensures Comment("@").Mentions() == [None]
  {
    calc {
      Comment("@").Mentions();
    == { MentionsOfJoin(["@"]); }
      Names(KeepIf(["@"]));
    == { assert KeepIf(["@"]) == ["@"]; }
      Names(["@"]);
    ==
      [None];
    }
  }

  /** A sigil right after the sigil gives one empty name. */
  lemma MentionsDoubleSigil()
    ensures Comment("@@bob").Mentions() == [Some("")]
  {
    calc {
      Comment("@@bob").Mentions();
    == { MentionsOfJoin(["@@bob"]); }
      Names(KeepIf(["@@bob"]));
    == { assert KeepIf(["@@bob"]) == ["@@bob"]; }
      Names(["@@bob"]);
    == { MentionNameEmpty("@@bob"); assert IsWord("@@bob"[2]); }
      [Some("")];
    }
  }
}
