/**
 * A multipart form field as the upload code sees it: an optional file name, an optional
 * declared content type, and the body as a stream of chunks, each of which is either the
 * next bytes or a read error. The stream ends where the sequence ends.
 *
 * Both upload paths read the stream the same way: chunk by chunk, keeping a running
 * total, and stopping at the first read error or at the first chunk that pushes the
 * total past a limit. `FirstStop` is the index of that chunk, defined once here.
 */
module Multipart {
  import opened Wrappers

  type Bytes = seq<bv8>

  /** One `field.chunk()` result: the next bytes, or the read error's text. */
  type Chunk = Result<Bytes, string>

  datatype Field = Field(fileName: Option<string>, contentType: Option<string>, chunks: seq<Chunk>)

  predicate AllOk(chunks: seq<Chunk>)
  {
    forall i :: 0 <= i < |chunks| ==> chunks[i].Success?
  }

  /** The in-order concatenation of the chunks' bytes. */
  function Payload(chunks: seq<Chunk>): Bytes
    requires AllOk(chunks)
    decreases |chunks|
  {
    if chunks == [] then [] else Payload(chunks[..|chunks| - 1]) + chunks[|chunks| - 1].value
  }

  lemma PayloadStep(chunks: seq<Chunk>, i: nat)
    requires i < |chunks| && AllOk(chunks[..i]) && chunks[i].Success?
    ensures AllOk(chunks[..i + 1])
    ensures Payload(chunks[..i + 1]) == Payload(chunks[..i]) + chunks[i].value
  {
    assert chunks[..i + 1][..i] == chunks[..i];
  }

  /** The bytes of a shorter prefix are a prefix of the bytes of a longer one. */
  lemma {:induction false} PayloadGrows(chunks: seq<Chunk>, m: nat, n: nat)
    requires m <= n <= |chunks| && AllOk(chunks[..n])
    ensures AllOk(chunks[..m])
    ensures Payload(chunks[..m]) <= Payload(chunks[..n])
    decreases n - m
  {
    if m < n {
      assert chunks[..n][..n - 1] == chunks[..n - 1];
      PayloadGrows(chunks, m, n - 1);
    }
  }

  /**
   * Scanning from index `i`, where `total` bytes have been read so far, the index of the
   * first chunk that is a read error or would push the total past `limit`; `|chunks|`
   * when there is none.
   */
  function StopFrom(chunks: seq<Chunk>, limit: nat, i: nat, total: nat): (k: nat)
    requires i <= |chunks| && AllOk(chunks[..i]) && total == |Payload(chunks[..i])| <= limit
    ensures i <= k <= |chunks|
    ensures AllOk(chunks[..k]) && |Payload(chunks[..k])| <= limit
    ensures k < |chunks| ==> chunks[k].Failure? || |Payload(chunks[..k])| + |chunks[k].value| > limit
    decreases |chunks| - i
  {
    if i == |chunks| || chunks[i].Failure? || total + |chunks[i].value| > limit then i
    else
      PayloadStep(chunks, i);
      StopFrom(chunks, limit, i + 1, total + |chunks[i].value|)
  }

  /**
   * Where reading `chunks` under a size `limit` stops: every chunk before it was read
   * and fits, and it is `|chunks|` or a read error or the chunk that exceeds the limit.
   */
  function FirstStop(chunks: seq<Chunk>, limit: nat): (k: nat)
    ensures k <= |chunks|
    ensures AllOk(chunks[..k]) && |Payload(chunks[..k])| <= limit
    ensures k < |chunks| ==> chunks[k].Failure? || |Payload(chunks[..k])| + |chunks[k].value| > limit
  {
    assert chunks[..0] == [];
    StopFrom(chunks, limit, 0, 0)
  }

  /** A prefix that was read and fits the limit lies before the stop. */
  lemma {:induction false} StopFromAtLeast(chunks: seq<Chunk>, limit: nat, i: nat, total: nat, j: nat)
    requires i <= |chunks| && AllOk(chunks[..i]) && total == |Payload(chunks[..i])| <= limit
    requires i <= j <= |chunks| && AllOk(chunks[..j]) && |Payload(chunks[..j])| <= limit
    ensures j <= StopFrom(chunks, limit, i, total)
    decreases j - i
  {
    if i < j {
      assert chunks[..j][i] == chunks[i];
      PayloadGrows(chunks, i + 1, j);
      PayloadStep(chunks, i);
      StopFromAtLeast(chunks, limit, i + 1, total + |chunks[i].value|, j);
    }
  }

  /** The three properties in FirstStop's contract determine the stop uniquely. */
  lemma {:induction false} StopFromIs(chunks: seq<Chunk>, limit: nat, i: nat, total: nat, j: nat)
    requires i <= |chunks| && AllOk(chunks[..i]) && total == |Payload(chunks[..i])| <= limit
    requires i <= j <= |chunks| && AllOk(chunks[..j]) && |Payload(chunks[..j])| <= limit
    requires j < |chunks| ==> chunks[j].Failure? || |Payload(chunks[..j])| + |chunks[j].value| > limit
    ensures StopFrom(chunks, limit, i, total) == j
    decreases j - i
  {
    if i < j {
      assert chunks[..j][i] == chunks[i];
      PayloadGrows(chunks, i + 1, j);
      PayloadStep(chunks, i);
      StopFromIs(chunks, limit, i + 1, total + |chunks[i].value|, j);
    }
  }

  lemma FirstStopAtLeast(chunks: seq<Chunk>, limit: nat, j: nat)
    requires j <= |chunks| && AllOk(chunks[..j]) && |Payload(chunks[..j])| <= limit
    ensures j <= FirstStop(chunks, limit)
  {
    assert chunks[..0] == [];
    StopFromAtLeast(chunks, limit, 0, 0, j);
  }

  lemma FirstStopIs(chunks: seq<Chunk>, limit: nat, j: nat)
    requires j <= |chunks| && AllOk(chunks[..j]) && |Payload(chunks[..j])| <= limit
    requires j < |chunks| ==> chunks[j].Failure? || |Payload(chunks[..j])| + |chunks[j].value| > limit
    ensures FirstStop(chunks, limit) == j
  {
    assert chunks[..0] == [];
    StopFromIs(chunks, limit, 0, 0, j);
  }

  /** The whole stream is read exactly when every chunk is readable and the bytes fit the limit. */
  lemma FirstStopFullIff(chunks: seq<Chunk>, limit: nat)
    ensures FirstStop(chunks, limit) == |chunks| <==> AllOk(chunks) && |Payload(chunks)| <= limit
  {
    assert chunks[..|chunks|] == chunks;
    if AllOk(chunks) && |Payload(chunks)| <= limit {
      FirstStopIs(chunks, limit, |chunks|);
    }
  }

  /** Once reading stops inside `pre`, whatever follows `pre` is never looked at. */
  lemma FirstStopPrefixClosed(pre: seq<Chunk>, rest: seq<Chunk>, limit: nat)
    requires FirstStop(pre, limit) < |pre|
    ensures FirstStop(pre + rest, limit) == FirstStop(pre, limit)
  {
    var k := FirstStop(pre, limit);
    assert (pre + rest)[..k] == pre[..k];
    assert (pre + rest)[k] == pre[k];
    FirstStopIs(pre + rest, limit, k);
  }

  /** Readable chunks whose bytes exceed the limit make reading stop inside them. */
  lemma OversizeStopsInside(pre: seq<Chunk>, limit: nat)
    requires AllOk(pre) && |Payload(pre)| > limit
    ensures FirstStop(pre, limit) < |pre|
    ensures pre[FirstStop(pre, limit)].Success?
  {
    FirstStopFullIff(pre, limit);
  }

  /** A read error after a readable prefix that fits stops reading right there. */
  lemma ReadErrorStops(pre: seq<Chunk>, e: string, rest: seq<Chunk>, limit: nat)
    requires AllOk(pre) && |Payload(pre)| <= limit
    ensures FirstStop(pre + [Failure(e)] + rest, limit) == |pre|
  {
    var s := pre + [Failure(e)] + rest;
    assert s[..|pre|] == pre;
    FirstStopIs(s, limit, |pre|);
  }
}
