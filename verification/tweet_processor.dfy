/** `TweetProcessor`: the status transitions of one batch over the pending
    tweets. Translation is a parameter answering the outcome of
    `translate_and_rewrite` for a text; media downloads are the parameters
    of `Media.DownloadMedia`. */
module TweetProcessor {
  import opened Base
  import opened Models
  import opened Media
  import Retry

  /** `_process_single_tweet`: the tweet after its transaction, and whether
      it succeeded. */
  function ProcessSingle(t: Tweet, translate: string -> Retry.Outcome, fetchVideo: string -> Option<string>,
                         fetchImage: string -> Option<string>, now: int): (r: (Tweet, bool))
    ensures r.1 <==> translate(t.originalText).Returned?
    ensures r.1 ==>
      && r.0.status == Processed
      && r.0.errorMessage.None?
      && r.0.hebrewDraft == Some(translate(t.originalText).text)
      && (DownloadMedia(t.mediaUrl, fetchVideo, fetchImage).Some? ==>
            r.0.mediaPath == DownloadMedia(t.mediaUrl, fetchVideo, fetchImage))
      && (DownloadMedia(t.mediaUrl, fetchVideo, fetchImage).None? ==> r.0.mediaPath == t.mediaPath)
    ensures !r.1 ==>
      && r.0.status == Failed
      && r.0.errorMessage == Some(translate(t.originalText).message)
      && r.0.hebrewDraft == t.hebrewDraft
      && r.0.mediaPath == t.mediaPath
    ensures r.0.updatedAt == now
    ensures r.0.(status := t.status, errorMessage := t.errorMessage, hebrewDraft := t.hebrewDraft,
                 mediaPath := t.mediaPath, updatedAt := t.updatedAt) == t
  {
    match translate(t.originalText)
    case Returned(hebrew) =>
      var media := DownloadMedia(t.mediaUrl, fetchVideo, fetchImage);
      (t.(hebrewDraft := Some(hebrew),
          mediaPath := if media.Some? then media else t.mediaPath,
          status := Processed,
          updatedAt := now,
          errorMessage := None), true)
    case Raised(e) =>
      (t.(status := Failed, errorMessage := Some(e), updatedAt := now), false)
  }

  /** The tweets a batch turns into PROCESSED. */
  predicate Succeeds(t: Tweet, translate: string -> Retry.Outcome) {
    t.status == Pending && translate(t.originalText).Returned?
  }

  /** What a batch does to one row: pending rows are processed, the
      others are left as they are. */
  function BatchRow(t: Tweet, translate: string -> Retry.Outcome, fetchVideo: string -> Option<string>,
                    fetchImage: string -> Option<string>, now: int): Tweet
  {
    if t.status == Pending then ProcessSingle(t, translate, fetchVideo, fetchImage, now).0 else t
  }

  /** After the batch no row is pending any more. */
  lemma BatchRowSettles(t: Tweet, translate: string -> Retry.Outcome, fetchVideo: string -> Option<string>,
                        fetchImage: string -> Option<string>, now: int)
    ensures BatchRow(t, translate, fetchVideo, fetchImage, now).status != Pending
    ensures BatchRow(t, translate, fetchVideo, fetchImage, now).status == Processed <==>
      t.status == Processed || Succeeds(t, translate)
  {
  }

  /** `process_pending_tweets`: every pending tweet goes through
      `ProcessSingle`, the other rows are untouched, no row stays pending,
      and the count is the number of successes. */
  method ProcessPendingTweets(table: seq<Tweet>, translate: string -> Retry.Outcome,
                              fetchVideo: string -> Option<string>, fetchImage: string -> Option<string>,
                              now: int)
    returns (result: seq<Tweet>, count: nat)
    ensures |result| == |table|
    ensures forall i :: 0 <= i < |table| && table[i].status != Pending ==> result[i] == table[i]
    ensures forall i :: 0 <= i < |table| && table[i].status == Pending ==>
      result[i] == ProcessSingle(table[i], translate, fetchVideo, fetchImage, now).0
    ensures forall i :: 0 <= i < |result| ==> result[i].status != Pending
    ensures count == CountIf(table, (t: Tweet) => Succeeds(t, translate))
  {
    var succeeds := (t: Tweet) => Succeeds(t, translate);
    var batchRow := (t: Tweet) => BatchRow(t, translate, fetchVideo, fetchImage, now);
    result := [];
    count := 0;
    var i := 0;
    while i < |table|
      invariant 0 <= i <= |table|
      invariant |result| == i
      invariant forall j :: 0 <= j < i ==> result[j] == batchRow(table[j])
      invariant count == CountIf(table[..i], succeeds)
    {
      var row := table[i];
      var outcome := BatchStep(row, translate, fetchVideo, fetchImage, now);
      if outcome.1 {
        count := count + 1;
      }
      MapSnoc(table, result, batchRow, i);
      result := result + [outcome.0];
      CountIfPrefixSnoc(table, i, succeeds);
      i := i + 1;
    }
    assert table[..i] == table;
    BatchRowsAreSingle(table, result, translate, fetchVideo, fetchImage, now);
  }

  /** One row of the batch: a pending row goes through `ProcessSingle`,
      whose success flag says whether the tweet counts. */
  function BatchStep(t: Tweet, translate: string -> Retry.Outcome, fetchVideo: string -> Option<string>,
                     fetchImage: string -> Option<string>, now: int): (r: (Tweet, bool))
    ensures r.0 == BatchRow(t, translate, fetchVideo, fetchImage, now)
    ensures r.1 <==> Succeeds(t, translate)
  {
    if t.status == Pending then ProcessSingle(t, translate, fetchVideo, fetchImage, now) else (t, false)
  }

  lemma BatchRowsAreSingle(table: seq<Tweet>, result: seq<Tweet>, translate: string -> Retry.Outcome,
                           fetchVideo: string -> Option<string>, fetchImage: string -> Option<string>, now: int)
    requires |result| == |table|
    requires forall j :: 0 <= j < |table| ==> result[j] == BatchRow(table[j], translate, fetchVideo, fetchImage, now)
    ensures forall i :: 0 <= i < |table| && table[i].status != Pending ==> result[i] == table[i]
    ensures forall i :: 0 <= i < |table| && table[i].status == Pending ==>
      result[i] == ProcessSingle(table[i], translate, fetchVideo, fetchImage, now).0
    ensures forall i :: 0 <= i < |result| ==> result[i].status != Pending
  {
    forall i | 0 <= i < |result|
      ensures result[i].status != Pending
    {
      BatchRowSettles(table[i], translate, fetchVideo, fetchImage, now);
    }
  }
}
