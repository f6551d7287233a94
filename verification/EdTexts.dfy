/** The texts of the lines, apart from where they are kept. */
module EdTexts {
  import opened EdRing
  import opened EdLog
  import opened EdBuffer

  ghost function AllTexts(L: seq<Line>): (T: seq<string>)
    ensures |T| == |L|
  {
    seq(|L|, i requires 0 <= i < |L| => L[i].text)
  }

  ghost predicate Own(L: seq<Line>, data: string) {
    forall i :: 0 <= i < |L| ==> OwnText(data, L[i])
  }

  /** Every line of the buffer has its text in the scratch file. */
  lemma OwnLines(ed: Editor)
    requires ed.Valid()
    ensures Own(ed.lines, ed.sf.data)
  {
    forall i | 0 <= i < |ed.lines| ensures OwnText(ed.sf.data, ed.lines[i]) {
      assert LinkedAt(ed.lines, i);
    }
  }

  lemma TextsConcat(A: seq<Line>, B: seq<Line>)
    ensures AllTexts(A + B) == AllTexts(A) + AllTexts(B)
  {
  }

  lemma TextsSlice(L: seq<Line>, i: int, j: int)
    requires 0 <= i <= j <= |L|
    ensures AllTexts(L[i..j]) == AllTexts(L)[i..j]
    ensures j == |L| ==> AllTexts(L[i..]) == AllTexts(L)[i..]
  {
  }

  /** A text found for a line is the text it was made with. */
  lemma TextsAre(S: seq<Line>, texts: seq<string>, data: string)
    requires HaveTexts(data, S, texts) && Own(S, data)
    ensures AllTexts(S) == texts
  {
    forall i | 0 <= i < |S| ensures S[i].text == texts[i] {
      assert HasTextAt(data, S, texts, i) && OwnText(data, S[i]);
    }
  }

  lemma OwnSlice(L: seq<Line>, i: int, j: int, data: string)
    requires 0 <= i <= j <= |L| && Own(L, data)
    ensures Own(L[i..j], data)
  {
    var S := L[i..j];
    forall k | 0 <= k < |S| ensures OwnText(data, S[k]) {
      assert S[k] == L[i + k];
    }
  }
}
