/**
 * A two-message dump worked through the model: each block carries a
 * Message-ID line and a Date line and no Subject line.
 */
module Scenarios {
  import opened Text
  import opened Split
  import opened Fields
  import opened Enron

  const SAMPLE_ID: string := "<abc@x.com>"
  const SAMPLE_DATE: string := "Mon, 1 Jan 2001"
  const SAMPLE_BLOCK: string := "Message-ID: " + SAMPLE_ID + "\n" + "Date: " + SAMPLE_DATE + "\n"
  const SAMPLE_FILE: string := SAMPLE_BLOCK + END_MARKER + SAMPLE_BLOCK + END_MARKER

  /** A pattern whose first letter is absent from `s` does not occur in `s`. */
  lemma AbsentLetter(s: string, pat: string)
    requires |pat| > 0 && pat[0] !in s
    ensures !Contains(s, pat)
  {
    forall i: nat | i <= |s| ensures !OccursAt(s, pat, i) {
      if i + |pat| <= |s| {
        assert s[i..i + |pat|][0] == s[i];
      }
    }
  }

  /** Both marker-terminated blocks become chunks, in order. */
  lemma SampleChunks()
    ensures Chunks(SAMPLE_FILE) == [SAMPLE_BLOCK, SAMPLE_BLOCK]
  {
    AbsentLetter(SAMPLE_BLOCK, END_MARKER);
    AbsentLetter("", END_MARKER);
    TrailingTextIgnored([SAMPLE_BLOCK, SAMPLE_BLOCK], "");
    var blocks := [SAMPLE_BLOCK, SAMPLE_BLOCK];
    assert blocks[1..] == [SAMPLE_BLOCK] && blocks[1..][1..] == [];
    assert Terminated([SAMPLE_BLOCK]) == SAMPLE_BLOCK + END_MARKER;
    assert Terminated(blocks) == SAMPLE_BLOCK + END_MARKER + (SAMPLE_BLOCK + END_MARKER);
    assert Terminated(blocks) + "" == SAMPLE_FILE;
  }

  /** The identifier is captured with its angle brackets. */
  lemma SampleMessageId()
    ensures ExtractEmail(SAMPLE_BLOCK).messageId == Found(SAMPLE_ID)
  {
    var block := SAMPLE_BLOCK;
    assert block[..12] == "Message-ID: ";
    assert block[12..23] == SAMPLE_ID;
    assert OccursAt(block, Prefix(MessageIdPattern), 0);
    assert block[23] == '\n';
    forall k | 13 <= k < 23 ensures block[k] != '\n' {
      assert block[k] == SAMPLE_ID[k - 12];
    }
    assert LineEnd(block, 13) == 23;
    assert LastIndexOf(block, '>', 14, 23) == Some(22);
    assert MatchAt(MessageIdPattern, block, 0) == Some(Span(12, 23));
  }

  /** The date is the rest of its line. */
  lemma SampleDate()
    ensures ExtractEmail(SAMPLE_BLOCK).date == Found(SAMPLE_DATE)
  {
    var block := SAMPLE_BLOCK;
    assert block[24..30] == "Date: ";
    assert block[30..45] == SAMPLE_DATE;
    forall k: nat | k < 24 ensures !OccursAt(block, Prefix(DatePattern), k) {
      if k == 9 {
        assert block[k..k + 6][1] == block[10] == ':';
      } else {
        assert block[k..k + 6][0] == block[k] != 'D';
      }
    }
    forall k: nat | k < 24 ensures MatchAt(DatePattern, block, k).None? {
      assert MatchAt(DatePattern, block, k) == RestOfLineAt(block, k, Prefix(DatePattern));
    }
    assert block[45] == '\n';
    forall k | 30 <= k < 45 ensures block[k] != '\n' {
      assert block[k] == SAMPLE_DATE[k - 30];
    }
    assert LineEnd(block, 30) == 45;
    assert MatchAt(DatePattern, block, 24) == Some(Span(30, 45));
    SearchUnique(DatePattern, block, 0, 24);
  }

  /** Without a Subject line the subject is the placeholder. */
  lemma SampleSubject()
    ensures ExtractEmail(SAMPLE_BLOCK).subject == Missing
  {
    AbsentLetter(SAMPLE_BLOCK, Prefix(SubjectPattern));
    RestOfLineField(SubjectPattern, SAMPLE_BLOCK);
  }
}
