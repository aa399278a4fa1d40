/** Extraction of the certificate block from the text stored in the
    certificate secret, which may carry metadata before and after the block.
    The entry point does this inline; here it is a function of its own. */
module Pem {
  import opened Wrappers
  import opened Strings
  import opened Errors

  const BeginMarker: string := "-----BEGIN CERTIFICATE-----"
  const EndMarker: string := "-----END CERTIFICATE-----"

  /** The extraction as the source writes it: the first begin marker and the
      first end marker are located independently and the text from the former
      through the latter is cut out, with no check of their order. `substring`
      throws when the begin index lies beyond the end of the end marker, and
      returns a short fragment when it lies inside it. */
  function ExtractPem(s: string): (r: Result<string, Error>)
    ensures !Contains(s, BeginMarker) <==> r == Failure(MissingBeginMarker)
    ensures Contains(s, BeginMarker) && !Contains(s, EndMarker) <==> r == Failure(MissingEndMarker)
    ensures forall b, e :: IsFirst(s, BeginMarker, b) && IsFirst(s, EndMarker, e) ==>
              if b <= e + |EndMarker| then r == Success(s[b..e + |EndMarker|])
              else r == Failure(PemSubstringOutOfRange)
    ensures r.Success? ==> Contains(s, r.value)
  {
    match IndexOf(s, BeginMarker)
    case None => Failure(MissingBeginMarker)
    case Some(b) =>
      match IndexOf(s, EndMarker)
      case None => Failure(MissingEndMarker)
      case Some(e) =>
        if b <= e + |EndMarker| then
          assert OccursAt(s, s[b..e + |EndMarker|], b);
          Success(s[b..e + |EndMarker|])
        else
          Failure(PemSubstringOutOfRange)
  }

  /** A clean block: one begin marker at the start and the first end marker at
      the very end. */
  predicate IsCleanBlock(block: string) {
    StartsWith(block, BeginMarker) && IsFirst(block, EndMarker, |block| - |EndMarker|)
  }

  /** A clean block is returned unchanged. */
  lemma CleanBlockUnchanged(block: string)
    requires IsCleanBlock(block)
    ensures ExtractPem(block) == Success(block)
  {
    assert block[0..|BeginMarker|] == block[..|BeginMarker|];
    assert IsFirst(block, BeginMarker, 0);
    assert block[0..|block| - |EndMarker| + |EndMarker|] == block;
  }

  /** Whether a marker occurs at `j` depends only on the text up to its end,
      so appending text after that point changes nothing. */
  lemma OccursAtPrefix(x: string, y: string, m: string, j: int)
    requires 0 <= j && j + |m| <= |x|
    ensures OccursAt(x + y, m, j) <==> OccursAt(x, m, j)
  {
    assert (x + y)[j..j + |m|] == x[j..j + |m|];
  }

  /** No occurrence of the marker `m` starts inside the leading text `pre`
      of `pre + block`. */
  predicate NoMarkerBefore(pre: string, block: string, m: string) {
    forall i :: 0 <= i < |pre| ==> !OccursAt(pre + block, m, i)
  }

  /** In the text around a clean block, the block's begin marker is the
      first one. */
  lemma BeginFirstAroundBlock(lead: string, block: string, trail: string)
    requires IsCleanBlock(block)
    requires NoMarkerBefore(lead, block, BeginMarker)
    ensures IsFirst(lead + block + trail, BeginMarker, |lead|)
  {
    var s := lead + block + trail;
    assert s[|lead|..|lead| + |BeginMarker|] == block[..|BeginMarker|];
    forall j | 0 <= j < |lead| ensures !OccursAt(s, BeginMarker, j) {
      OccursAtPrefix(lead + block, trail, BeginMarker, j);
    }
  }

  /** In the text around a clean block, the block's end marker is the first
      one. */
  lemma EndFirstAroundBlock(lead: string, block: string, trail: string)
    requires IsCleanBlock(block)
    requires NoMarkerBefore(lead, block, EndMarker)
    ensures IsFirst(lead + block + trail, EndMarker, |lead| + |block| - |EndMarker|)
  {
    var s := lead + block + trail;
    var e := |lead| + |block| - |EndMarker|;
    assert s[..|lead + block|] == lead + block;
    assert s[e..e + |EndMarker|] == block[|block| - |EndMarker|..|block|];
    forall j | 0 <= j < e ensures !OccursAt(s, EndMarker, j) {
      OccursAtPrefix(lead + block, trail, EndMarker, j);
      if j >= |lead| {
        assert (lead + block)[j..j + |EndMarker|] == block[j - |lead|..j - |lead| + |EndMarker|];
        assert !OccursAt(block, EndMarker, j - |lead|);
      }
    }
  }

  /** Text around a clean block is dropped, as long as the leading text does
      not itself start a marker. */
  lemma {:induction false} SurroundingTextDropped(pre: string, block: string, post: string)
    requires IsCleanBlock(block)
    requires NoMarkerBefore(pre, block, BeginMarker) && NoMarkerBefore(pre, block, EndMarker)
    ensures ExtractPem(pre + block + post) == Success(block)
  {
    var s := pre + block + post;
    BeginFirstAroundBlock(pre, block, post);
    EndFirstAroundBlock(pre, block, post);
    assert s[|pre|..|pre| + |block|] == block;
  }

  /** The 'B' of a begin marker cannot lie inside an end marker, because the
      end marker contains no 'B'. */
  lemma BeginLetterNotInsideEnd(s: string, b: int, e: int)
    requires OccursAt(s, BeginMarker, b) && OccursAt(s, EndMarker, e)
    ensures !(e <= b + 5 < e + |EndMarker|)
  {
    assert s[b + 5] == s[b..b + |BeginMarker|][5] == 'B';
    assert 'B' !in EndMarker;
    forall j | e <= j < e + |EndMarker| ensures s[j] != 'B' {
      assert s[j] == s[e..e + |EndMarker|][j - e];
    }
  }

  /** When the first begin marker comes first, the result is a genuine block:
      it opens with the begin marker, closes with the end marker whose last
      character is the last one taken from the input, and its length is fixed
      by the two indices. */
  lemma {:induction false} OrderedMarkersGiveBlock(s: string, b: int, e: int)
    requires IsFirst(s, BeginMarker, b) && IsFirst(s, EndMarker, e) && b <= e
    ensures ExtractPem(s).Success?
    ensures |ExtractPem(s).value| == e + |EndMarker| - b
    ensures StartsWith(ExtractPem(s).value, BeginMarker)
    ensures EndsWith(ExtractPem(s).value, EndMarker)
    ensures ExtractPem(s).value[|ExtractPem(s).value| - 1] == s[e + |EndMarker| - 1]
  {
    OrderedBlockOpens(s, b, e);
    OrderedBlockCloses(s, b, e);
    OrderedBlockLastCharacter(s, b, e);
  }

  /** The opening half of `OrderedMarkersGiveBlock`. */
  lemma OrderedBlockOpens(s: string, b: int, e: int)
    requires IsFirst(s, BeginMarker, b) && IsFirst(s, EndMarker, e) && b <= e
    ensures StartsWith(ExtractPem(s).value, BeginMarker)
  {
    BeginLetterNotInsideEnd(s, b, e);
    ExtractPemBetween(s, b, e);
    BlockBetweenMarkers(s, b, e);
  }

  /** The closing half of `OrderedMarkersGiveBlock`, with the length. */
  lemma OrderedBlockCloses(s: string, b: int, e: int)
    requires IsFirst(s, BeginMarker, b) && IsFirst(s, EndMarker, e) && b <= e
    ensures |ExtractPem(s).value| == e + |EndMarker| - b
    ensures EndsWith(ExtractPem(s).value, EndMarker)
  {
    BeginLetterNotInsideEnd(s, b, e);
    ExtractPemBetween(s, b, e);
    BlockBetweenMarkers(s, b, e);
  }

  /** The block ends where the first end marker ends. */
  lemma OrderedBlockLastCharacter(s: string, b: int, e: int)
    requires IsFirst(s, BeginMarker, b) && IsFirst(s, EndMarker, e) && b <= e
    ensures ExtractPem(s).Success? && ExtractPem(s).value[|ExtractPem(s).value| - 1] == s[e + |EndMarker| - 1]
  {
    ExtractPemBetween(s, b, e);
  }

  /** With both first markers known and the begin index in range, extraction
      cuts from one to the end of the other. */
  lemma ExtractPemBetween(s: string, b: int, e: int)
    requires IsFirst(s, BeginMarker, b) && IsFirst(s, EndMarker, e) && b <= e + |EndMarker|
    ensures ExtractPem(s) == Success(s[b..e + |EndMarker|])
  {
  }

  /** The text from a begin marker through an end marker that starts past
      the begin marker's 'B' opens and closes with the two markers. */
  lemma BlockBetweenMarkers(s: string, b: int, e: int)
    requires OccursAt(s, BeginMarker, b) && OccursAt(s, EndMarker, e) && b + 5 < e
    ensures StartsWith(s[b..e + |EndMarker|], BeginMarker)
    ensures EndsWith(s[b..e + |EndMarker|], EndMarker)
  {
    var r := s[b..e + |EndMarker|];
    assert r[..|BeginMarker|] == s[b..b + |BeginMarker|];
    assert r[|r| - |EndMarker|..] == s[e..e + |EndMarker|];
  }

  /** When the first end marker comes first, extraction either fails with the
      out-of-range error or "succeeds" with a fragment that is no block at
      all: a run of at most five dashes shared by the two markers. */
  lemma {:induction false} ReversedMarkersGiveFragment(s: string, b: int, e: int)
    requires IsFirst(s, BeginMarker, b) && IsFirst(s, EndMarker, e) && e < b
    ensures ExtractPem(s) == Failure(PemSubstringOutOfRange) || ExtractPem(s).Success?
    ensures ExtractPem(s).Success? ==>
              && |ExtractPem(s).value| <= 5
              && (forall i :: 0 <= i < |ExtractPem(s).value| ==> ExtractPem(s).value[i] == '-')
              && !StartsWith(ExtractPem(s).value, BeginMarker)
              && !EndsWith(ExtractPem(s).value, EndMarker)
  {
    if b <= e + |EndMarker| {
      BeginLetterNotInsideEnd(s, b, e);
      var r := s[b..e + |EndMarker|];
      assert ExtractPem(s) == Success(r);
      forall i | 0 <= i < |r|
        ensures r[i] == '-'
      {
        assert r[i] == s[b..b + |BeginMarker|][i];
      }
    }
  }

  /** An end marker immediately followed by the tail of a begin marker that
      shares its dashes. */
  const ReversedSample: string := "-----END CERTIFICATE-----BEGIN CERTIFICATE-----"

  /** In the sample, the first end marker is at index 0 and the first begin
      marker at index 20, inside it. */
  lemma ReversedSampleMarkers()
    ensures IsFirst(ReversedSample, EndMarker, 0)
    ensures IsFirst(ReversedSample, BeginMarker, 20)
  {
    var s := ReversedSample;
    assert s[0..|EndMarker|] == EndMarker;
    ReversedSampleBeginAt20();
    forall j | 0 <= j < 20 ensures !OccursAt(s, BeginMarker, j) {
      if OccursAt(s, BeginMarker, j) {
        BeginLetterNotInsideEnd(s, j, 0);
      }
    }
  }

  /** The sample holds a begin marker at index 20. */
  lemma ReversedSampleBeginAt20()
    ensures OccursAt(ReversedSample, BeginMarker, 20)
  {
    assert ReversedSample[20..] == BeginMarker;
  }

  /** The input that shows the missing order check: the as-written extraction
      accepts it and returns five dashes, and the corrected one rejects it as
      out of order. */
  lemma ReversedSampleYieldsDashes()
    ensures ExtractPem(ReversedSample) == Success("-----")
    ensures ExtractPemChecked(ReversedSample) == Failure(MarkersOutOfOrder)
  {
    var s := ReversedSample;
    ReversedSampleMarkers();
    assert s[20..25] == s[20..20 + |BeginMarker|][..5] == "-----";
  }

  /** The extraction with the order check the source evidently intends: an
      end marker before the begin marker is reported instead of being cut
      into a fragment, so every success is a genuine block. */
  function ExtractPemChecked(s: string): (r: Result<string, Error>)
    ensures !Contains(s, BeginMarker) ==> r == Failure(MissingBeginMarker)
    ensures Contains(s, BeginMarker) && !Contains(s, EndMarker) ==> r == Failure(MissingEndMarker)
    ensures forall b, e :: IsFirst(s, BeginMarker, b) && IsFirst(s, EndMarker, e) ==>
              (r == Failure(MarkersOutOfOrder) <==> e < b)
    ensures r.Success? ==> StartsWith(r.value, BeginMarker) && EndsWith(r.value, EndMarker)
    ensures r.Success? ==> Contains(s, r.value)
    ensures r != Failure(MarkersOutOfOrder) ==> r == ExtractPem(s)
  {
    match IndexOf(s, BeginMarker)
    case None => Failure(MissingBeginMarker)
    case Some(b) =>
      match IndexOf(s, EndMarker)
      case None => Failure(MissingEndMarker)
      case Some(e) =>
        if e < b then
          Failure(MarkersOutOfOrder)
        else
          OrderedMarkersGiveBlock(s, b, e);
          ExtractPem(s)
  }

}
