/** The two word tables of the parser: what a prefix of one of their words looks like, and
    what the search over a table decides. */
module Words {
  import opened Text
  import opened Message

  predicate IsPrefixOfSome(range: seq<string>, t: string) {
    exists i :: 0 <= i < |range| && t <= range[i]
  }

  /** No character of the word stops or leads a token. */
  predicate IsWord(w: string) {
    forall i :: 0 <= i < |w| ==> !IsSpace(w[i]) && w[i] != '\r'
  }

  /** A word of the table that starts with another word of the table is that word. */
  predicate IsPrefixFree(range: seq<string>) {
    forall i, j :: 0 <= i < |range| && 0 <= j < |range| && range[i] != "" && range[i] <= range[j]
                   ==> range[i] == range[j]
  }

  lemma MethodsAreWords()
    ensures forall i :: 0 <= i < |METHODS| ==> IsWord(METHODS[i])
    ensures IsPrefixFree(METHODS)
  {
    var heads := ['C', 'D', 'G', 'H', 'O', 'P', 'P', 'P', 'T'];
    assert forall i :: 0 <= i < |METHODS| - 1 ==> METHODS[i] != "" && METHODS[i][0] == heads[i];
    assert METHODS[5][1] == 'A' && METHODS[6][1] == 'O' && METHODS[7][1] == 'U';
  }

  lemma VersionsAreWords()
    ensures forall i :: 0 <= i < |VERSIONS| ==> IsWord(VERSIONS[i]) && |VERSIONS[i]| == 3
    ensures IsPrefixFree(VERSIONS)
  {
    assert VERSIONS[0] == "0.9" && VERSIONS[1] == "1.0" && VERSIONS[2] == "1.1";
  }

  lemma PrefixIsToken(range: seq<string>, t: string)
    requires forall i :: 0 <= i < |range| ==> IsWord(range[i])
    requires t != "" && IsPrefixOfSome(range, t)
    ensures IsToken(t)
  {
    var i :| 0 <= i < |range| && t <= range[i];
    assert forall k :: 0 <= k < |t| ==> t[k] == range[i][k];
  }

  /** With text behind the word, every prefix of a table word is found and nothing else is.
      At the end of the text a proper prefix asks for more, a whole word is found. */
  lemma {:induction false} FindInRangeDecides(range: seq<string>, t: string, full: string, hint: string)
    requires t != ""
    ensures !IsPrefixOfSome(range, t) ==> FindInRange(range, t, full, hint).Incorrect?
    ensures IsPrefixOfSome(range, t) && full != "" ==> FindInRange(range, t, full, hint) == Ok(())
    ensures IsPrefixOfSome(range, t) && full == "" && t !in range
            ==> FindInRange(range, t, full, hint).Expecting?
    ensures t in range && full == "" && IsPrefixFree(range)
            ==> FindInRange(range, t, full, hint) == Ok(())
  {
    if range != [] {
      CommonPrefixIsAll(range[0], t);
      FindInRangeDecides(range[1..], t, full, hint);
      assert t <= range[0] && |t| == |range[0]| ==> t == range[0];
      assert IsPrefixFree(range) ==> IsPrefixFree(range[1..]);
      assert IsPrefixOfSome(range, t) ==> t <= range[0] || IsPrefixOfSome(range[1..], t) by {
        if i :| 0 <= i < |range| && t <= range[i] {
          assert i > 0 ==> range[i] == range[1..][i - 1];
        }
      }
      assert IsPrefixOfSome(range[1..], t) ==> IsPrefixOfSome(range, t) by {
        if i :| 0 <= i < |range[1..]| && t <= range[1..][i] {
          assert range[i + 1] == range[1..][i];
        }
      }
    }
  }

  /** The search only looks at whether the text goes on, not at how. */
  lemma {:induction false} FindInRangeIgnoresText(range: seq<string>, t: string, full: string, more: string,
                                                 hint: string)
    requires full != "" && more != ""
    ensures FindInRange(range, t, full, hint) == FindInRange(range, t, more, hint)
  {
    if range != [] {
      FindInRangeIgnoresText(range[1..], t, full, more, hint);
    }
  }
}
