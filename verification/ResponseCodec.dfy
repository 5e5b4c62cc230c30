/** Reassembling a decompressed response within its limits (gateway/src/response-codec.ts). */
module ResponseCodec {
  import opened Common
  import opened Constants
  import opened Base64Url
  import S = SessionRecord

  /** What the decompressor yields: chunks, then a clean end or a failure. */
  datatype Stream = Stream(chunks: seq<seq<Byte>>, broken: bool)

  function Total(chunks: seq<seq<Byte>>): nat {
    if chunks == [] then 0 else Total(chunks[..|chunks| - 1]) + |chunks[|chunks| - 1]|
  }

  function Concat(chunks: seq<seq<Byte>>): seq<Byte> {
    if chunks == [] then [] else Concat(chunks[..|chunks| - 1]) + chunks[|chunks| - 1]
  }

  function Limit(declared: nat): nat {
    if declared < MAX_MCP_RESPONSE_DECODED_BYTES then declared else MAX_MCP_RESPONSE_DECODED_BYTES
  }

  /** Some prefix of the stream already exceeds the declared size or the maximum. */
  ghost predicate Overflows(chunks: seq<seq<Byte>>, declared: nat) {
    exists k :: 0 <= k <= |chunks| && Total(chunks[..k]) > Limit(declared)
  }

  lemma {:induction false} TotalOfConcat(chunks: seq<seq<Byte>>)
    ensures |Concat(chunks)| == Total(chunks)
  {
    if chunks != [] {
      TotalOfConcat(chunks[..|chunks| - 1]);
    }
  }

  lemma TotalStep(chunks: seq<seq<Byte>>, k: nat)
    requires k < |chunks|
    ensures Total(chunks[..k + 1]) == Total(chunks[..k]) + |chunks[k]|
    ensures Concat(chunks[..k + 1]) == Concat(chunks[..k]) + chunks[k]
  {
    assert chunks[..k + 1][..k] == chunks[..k];
  }

  lemma {:induction false} TotalGrows(chunks: seq<seq<Byte>>, j: nat, k: nat)
    requires j <= k <= |chunks|
    ensures Total(chunks[..j]) <= Total(chunks[..k])
    decreases k
  {
    if j < k {
      TotalGrows(chunks, j, k - 1);
      TotalStep(chunks, k - 1);
    }
  }

  /** As totals only grow, a stream overflows exactly when all of it is too large. */
  lemma OverflowsIff(chunks: seq<seq<Byte>>, declared: nat)
    ensures Overflows(chunks, declared) <==> Total(chunks) > Limit(declared)
  {
    assert chunks[..|chunks|] == chunks;
    if k :| 0 <= k <= |chunks| && Total(chunks[..k]) > Limit(declared) {
      TotalGrows(chunks, k, |chunks|);
    }
  }

  /**
  Collects chunks while they fit. On success the whole stream was collected; the chunks held are always
  a prefix of the stream whose total respects both limits, and reading stops at the first overflow.
  */
  method Collect(stream: Stream, declared: nat) returns (held: seq<seq<Byte>>, total: nat, failure: Option<S.HttpError>)
    ensures held <= stream.chunks && Total(held) <= Limit(declared)
    ensures failure ==
      if Overflows(stream.chunks, declared) then Some(S.HttpError(413, "rpc_response_decoded_too_large"))
                       else if stream.broken then Some(S.HttpError(502, "rpc_response_invalid")) else None
    ensures failure.None? ==> held == stream.chunks && total == Total(held)
  {
    held, total := [], 0;
    var n := 0;
    while n < |stream.chunks|
      invariant n <= |stream.chunks| && held == stream.chunks[..n] && total == Total(held)
      invariant total <= Limit(declared)
    {
      TotalStep(stream.chunks, n);
      total := total + |stream.chunks[n]|;
      if total > declared || total > MAX_MCP_RESPONSE_DECODED_BYTES {
        assert Total(stream.chunks[..n + 1]) > Limit(declared);
        return held, total, Some(S.HttpError(413, "rpc_response_decoded_too_large"));
      }
      held := held + [stream.chunks[n]];
      n := n + 1;
      assert held == stream.chunks[..n];
    }
    assert stream.chunks[..|stream.chunks|] == stream.chunks;
    OverflowsIff(stream.chunks, declared);
    return held, total, if stream.broken then Some(S.HttpError(502, "rpc_response_invalid")) else None;
  }

  /** Copies one chunk into the buffer at an offset. */
  method SetAt(decoded: array<Byte>, chunk: seq<Byte>, offset: nat)
    requires offset + |chunk| <= decoded.Length
    modifies decoded
    ensures decoded[..] == old(decoded[..offset]) + chunk + old(decoded[offset + |chunk|..])
  {
    for i := 0 to |chunk|
      invariant forall j :: 0 <= j < decoded.Length ==>
                  decoded[j] == if offset <= j < offset + i then chunk[j - offset] else old(decoded[j])
    {
      decoded[offset + i] := chunk[i];
    }
  }

  method Assemble(chunks: seq<seq<Byte>>, total: nat) returns (decoded: seq<Byte>)
    requires total == Total(chunks)
    ensures decoded == Concat(chunks)
  {
    var buffer := new Byte[total];
    var offset := 0;
    assert chunks[..0] == [];
    for n := 0 to |chunks|
      invariant offset == Total(chunks[..n]) <= total
      invariant buffer[..offset] == Concat(chunks[..n])
    {
      TotalStep(chunks, n);
      TotalGrows(chunks, n + 1, |chunks|);
      assert chunks[..|chunks|] == chunks;
      SetAt(buffer, chunks[n], offset);
      offset := offset + |chunks[n]|;
    }
    assert chunks[..|chunks|] == chunks;
    assert buffer[..] == buffer[..offset];
    decoded := buffer[..];
  }

  /** The body is returned exactly when the stream is sound and as long as declared; otherwise the refusal says why. */
  method GunzipBounded(stream: Stream, declared: nat) returns (r: Result<seq<Byte>, S.HttpError>)
    ensures Total(stream.chunks) > Limit(declared) <==> r == Err(S.HttpError(413, "rpc_response_decoded_too_large"))
    ensures r.Ok? <==> !stream.broken && Total(stream.chunks) == declared <= MAX_MCP_RESPONSE_DECODED_BYTES
    ensures r.Ok? ==> r.value == Concat(stream.chunks) && |r.value| == declared
    ensures r.Err? && Total(stream.chunks) <= Limit(declared) ==> r == Err(S.HttpError(502, "rpc_response_invalid"))
  {
    OverflowsIff(stream.chunks, declared);
    TotalOfConcat(stream.chunks);
    var held, total, failure := Collect(stream, declared);
    if failure.Some? {
      return Err(failure.value);
    }
    if total != declared {
      return Err(S.HttpError(502, "rpc_response_invalid"));
    }
    var decoded := Assemble(held, total);
    return Ok(decoded);
  }

  /** The checks of the encoded body, in order: its length, its decodability, and the size it claims. */
  function CheckBody(body: string, compressedSize: int): Result<seq<Byte>, S.HttpError> {
    if body == "" || |body| > MAX_MCP_RESPONSE_ENCODED_CHARACTERS then Err(S.HttpError(413, "rpc_response_too_large"))
    else
      var compressed := GatewayDecode(body);
      if compressed.None? then Err(S.HttpError(400, "rpc_response_invalid"))
      else if compressedSize < 0 || compressedSize > MAX_MCP_RESPONSE_COMPRESSED_BYTES then
        Err(S.HttpError(400, "rpc_response_compressed_size_invalid"))
      else if compressedSize == 0 || |compressed.value| != compressedSize then
        Err(S.HttpError(400, "rpc_response_invalid"))
      else Ok(compressed.value)
  }
}

/** What the body checks admit. */
module ResponseCodecLaws {
  import opened Common
  import opened Constants
  import opened Base64Url
  import opened Base64UrlLaws
  import opened ResponseCodec
  import S = SessionRecord

  /**
  A body is accepted, as these bytes, exactly when it encodes them, they are not empty and fit the limit, and
  their number is the one claimed.
  */
  lemma BodyAcceptedIff(body: string, compressedSize: int, bytes: seq<Byte>)
    ensures CheckBody(body, compressedSize) == Ok(bytes) <==>
      body == Encode(bytes) && 0 < |bytes| <= MAX_MCP_RESPONSE_COMPRESSED_BYTES && compressedSize == |bytes|
  {
    EncodedLimitIsByteLimit(bytes);
    GatewayAcceptsImage(body);
  }

  /** Which refusal: too large is empty or over the limit; a size out of bounds is told apart once the body decodes. */
  lemma BodyRefusedBecause(body: string, compressedSize: int)
    requires CheckBody(body, compressedSize).Err?
    ensures
      var error := CheckBody(body, compressedSize).error;
      var sized := 0 < |body| <= 1_048_576;
      var decodes := sized && GatewayDecode(body).Some?;
      && (error == S.HttpError(413, "rpc_response_too_large") <==> !sized)
      && (error == S.HttpError(400, "rpc_response_compressed_size_invalid") <==>
        decodes && !(0 <= compressedSize <= 786_432))
      && (error == S.HttpError(400, "rpc_response_invalid") <==>
        sized && (!decodes || (0 <= compressedSize <= 786_432)))
  {
  }

}
