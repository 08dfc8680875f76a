/** The finish-label test shared by the records and the prediction services. */
module FinishLabels {
  import opened Wrappers
  import opened Text

  /** The configured finish keywords (`FINISH_KEYWORDS_KO` and `FINISH_KEYWORDS_EN`). */
  datatype Vocabulary = Vocabulary(korean: seq<string>, english: seq<string>)

  predicate ContainsAny(s: string, keys: seq<string>)
  {
    exists i :: 0 <= i < |keys| && Contains(s, keys[i])
  }

  /** `_is_finish_label`: a non-empty label whose stripped text holds a Korean keyword, or whose
      stripped and lowered text holds an English keyword. */
  predicate IsFinishLabel(pointLabel: Option<string>, v: Vocabulary)
  {
    pointLabel.Some? && pointLabel.value != ""
    && (var raw := Strip(pointLabel.value);
        ContainsAny(raw, v.korean) || ContainsAny(Lower(raw), v.english))
  }

  predicate HasNoAsciiLetter(k: string)
  {
    forall i :: 0 <= i < |k| ==> !('A' <= k[i] <= 'Z') && !('a' <= k[i] <= 'z')
  }

  /** A None or empty label is never a finish label. */
  lemma NoLabelIsNotFinish(v: Vocabulary)
    ensures !IsFinishLabel(None, v) && !IsFinishLabel(Some(""), v)
  {
  }

  /** Lowering does not move characters, and it changes only ASCII letters. */
  lemma LowerOccurs(s: string, k: string, j: int)
    requires HasNoAsciiLetter(k)
    ensures OccursAt(Lower(s), k, j) <==> OccursAt(s, k, j)
  {
    if 0 <= j && j + |k| <= |s| {
      if OccursAt(s, k, j) {
        forall i | 0 <= i < |k| ensures Lower(s)[j + i] == k[i] {
          assert s[j + i] == s[j..j + |k|][i];
        }
        assert Lower(s)[j..j + |k|] == k;
      }
      if OccursAt(Lower(s), k, j) {
        forall i | 0 <= i < |k| ensures s[j + i] == k[i] {
          assert Lower(s)[j + i] == Lower(s)[j..j + |k|][i];
          assert LowerChar(s[j + i]) == k[i];
        }
        assert s[j..j + |k|] == k;
      }
    }
  }

  /** A keyword without ASCII letters occurs in the lowered text exactly when it occurs in the text. */
  lemma LowerContains(s: string, k: string)
    requires HasNoAsciiLetter(k)
    ensures Contains(Lower(s), k) <==> Contains(s, k)
  {
    ContainsIff(s, k);
    ContainsIff(Lower(s), k);
    forall j ensures OccursAt(Lower(s), k, j) <==> OccursAt(s, k, j) {
      LowerOccurs(s, k, j);
    }
  }

  /** Lowering keeps whitespace, so it commutes with stripping. */
  lemma {:induction false} StripLeftLower(s: string)
    ensures StripLeft(Lower(s)) == Lower(StripLeft(s))
    decreases |s|
  {
    if s != [] {
      assert Lower(s)[1..] == Lower(s[1..]);
      SpaceLower(s[0]);
      if IsSpace(s[0]) {
        StripLeftLower(s[1..]);
      }
    }
  }

  lemma {:induction false} StripRightLower(s: string)
    ensures StripRight(Lower(s)) == Lower(StripRight(s))
    decreases |s|
  {
    if s != [] {
      assert Lower(s)[..|s| - 1] == Lower(s[..|s| - 1]);
      SpaceLower(s[|s| - 1]);
      if IsSpace(s[|s| - 1]) {
        StripRightLower(s[..|s| - 1]);
      }
    }
  }

  lemma StripLower(s: string)
    ensures Strip(Lower(s)) == Lower(Strip(s))
  {
    StripLeftLower(s);
    StripRightLower(StripLeft(s));
  }

  /** When the Korean keywords hold no ASCII letter (as Hangul keywords do), the finish-label
      test ignores ASCII case. */
  lemma FinishLabelIgnoresCase(l: string, v: Vocabulary)
    requires forall i :: 0 <= i < |v.korean| ==> HasNoAsciiLetter(v.korean[i])
    ensures IsFinishLabel(Some(Lower(l)), v) <==> IsFinishLabel(Some(l), v)
  {
    StripLower(l);
    var raw := Strip(l);
    LowerIdempotent(raw);
    forall i | 0 <= i < |v.korean| ensures Contains(Lower(raw), v.korean[i]) <==> Contains(raw, v.korean[i]) {
      LowerContains(raw, v.korean[i]);
    }
  }
}
