/**
 * Delivery of the rendered report over a transport whose messages hold at
 * most 4000 characters (`send_logs`): a longer text is cut into consecutive
 * 4000-character pieces, purely by position.
 */
module Delivery {
  import opened PyText

  /** The largest message the transport accepts, in characters. */
  const ChunkSize: int := 4000

  /** Concatenation of the pieces in order. */
  function Concat(cs: seq<string>): string
    decreases |cs|
  {
    if cs == [] then "" else cs[0] + Concat(cs[1..])
  }

  /** The pieces `text[i:i+4000]` for `i` in `range(0, len(text), 4000)`. */
  function Chunks(text: string): (cs: seq<string>)
    ensures |cs| == (|text| + ChunkSize - 1) / ChunkSize
    ensures forall k :: 0 <= k < |cs| ==> 0 < |cs[k]| <= ChunkSize
    ensures forall k :: 0 <= k < |cs| - 1 ==> |cs[k]| == ChunkSize
  {
    var n := (|text| + ChunkSize - 1) / ChunkSize;
    seq(n, k requires 0 <= k < n => text[k * ChunkSize .. Min((k + 1) * ChunkSize, |text|)])
  }

  /** A text longer than one piece is its first 4000 characters followed by the pieces of the rest. */
  lemma ChunksCons(text: string)
    requires |text| > ChunkSize
    ensures Chunks(text) == [text[..ChunkSize]] + Chunks(text[ChunkSize..])
  {
    var cs, rest := Chunks(text), Chunks(text[ChunkSize..]);
    assert |cs| == |rest| + 1;
    forall k | 0 < k < |cs| ensures cs[k] == rest[k - 1] {
      assert text[ChunkSize..][(k - 1) * ChunkSize .. Min(k * ChunkSize, |text| - ChunkSize)]
          == text[k * ChunkSize .. Min((k + 1) * ChunkSize, |text|)];
    }
  }

  /** Concatenating the pieces in order gives back the text exactly. */
  lemma {:induction false} ChunksConcat(text: string)
    ensures Concat(Chunks(text)) == text
    decreases |text|
  {
    if |text| > ChunkSize {
      ChunksCons(text);
      ChunksConcat(text[ChunkSize..]);
      assert text == text[..ChunkSize] + text[ChunkSize..];
    } else if text != [] {
      assert (|text| + ChunkSize - 1) / ChunkSize == 1;
      assert Chunks(text)[0] == text[0..|text|] == text;
      assert Chunks(text) == [text];
      assert Concat([text]) == text + Concat([]);
    }
  }

  /** The messages actually sent: the pieces when the text is too long, else the text itself. */
  function Deliver(text: string): seq<string> {
    if |text| > ChunkSize then Chunks(text) else [text]
  }

  /**
   * Every message fits the transport, the messages concatenate to the text, a
   * text that fits is sent once unchanged, and a longer one goes out as
   * `ceil(L / 4000)` messages of which all but the last are full.
   */
  lemma DeliverSpec(text: string)
    ensures Concat(Deliver(text)) == text
    ensures forall k :: 0 <= k < |Deliver(text)| ==> |Deliver(text)[k]| <= ChunkSize
    ensures |text| <= ChunkSize ==> Deliver(text) == [text]
    ensures |text| > ChunkSize ==>
      && |Deliver(text)| == (|text| + ChunkSize - 1) / ChunkSize
      && forall k :: 0 <= k < |Deliver(text)| - 1 ==> |Deliver(text)[k]| == ChunkSize
  {
    if |text| > ChunkSize {
      ChunksConcat(text);
    } else {
      assert Concat([text]) == text + Concat([]);
    }
  }
}
