// requestBodyCache (internal/server/runtime.go) and BodyContext
// (internal/matcher/request.go): a request body is a stream that can be read once,
// and matching, rendering and recording all need it.
module RequestBody {
  import opened Wrappers
  import opened JsonTree

  // What reading a stream to its end delivers: the bytes, and whether it failed
  // after them.
  datatype ReadResult = ReadResult(bytes: string, failed: bool)

  const NOTHING := ReadResult("", false)

  // A stream gives its content to the first reader and nothing to later ones.
  class BodyStream {
    const content: ReadResult
    var timesRead: nat

    constructor (content: ReadResult)
      ensures this.content == content && timesRead == 0
    {
      this.content := content;
      timesRead := 0;
    }

    method ReadAll() returns (r: ReadResult)
      modifies this
      ensures timesRead == old(timesRead) + 1
      ensures r == if old(timesRead) == 0 then content else NOTHING
    {
      r := if timesRead == 0 then content else NOTHING;
      timesRead := timesRead + 1;
    }
  }

  class BodyContext {
    const raw: string
    var parsed: Option<Option<Json>>     // None until ParseJSON has been asked

    constructor (raw: string)
      ensures this.raw == raw && parsed == None
    {
      this.raw := raw;
      parsed := None;
    }

    ghost predicate Valid(decode: string -> Option<Json>)
      reads this
    {
      parsed.Some? ==> parsed.value == decode(raw)
    }

    // None stands for a parse error.
    method Parsed(decode: string -> Option<Json>) returns (r: Option<Json>)
      requires Valid(decode)
      modifies this
      ensures Valid(decode) && r == decode(raw)
    {
      if parsed.None? {
        parsed := Some(decode(raw));
      }
      r := parsed.value;
    }
  }

  class RequestBodyCache {
    const stream: BodyStream?            // null for no body
    const contentLength: int             // -1 when unknown
    var read: bool
    var result: ReadResult
    var contextValue: BodyContext?

    // The whole body, as one undisturbed reading of the stream would give it.
    ghost function Body(): (r: ReadResult) {
      if stream == null then NOTHING else stream.content
    }

    // The stream is read at most once, and whatever has been kept is that reading.
    ghost predicate Valid()
      reads this, stream
    {
      && (stream != null ==> stream.timesRead == if read then 1 else 0)
      && (read ==> result == Body())
      && (contextValue != null ==> read && !Body().failed && contextValue.raw == Body().bytes)
    }

    constructor (stream: BodyStream?, contentLength: int)
      requires stream != null ==> stream.timesRead == 0
      ensures Valid() && this.stream == stream && this.contentLength == contentLength && !read
    {
      this.stream, this.contentLength := stream, contentLength;
      read, result, contextValue := false, NOTHING, null;
    }

    method Bytes() returns (r: ReadResult)
      requires Valid()
      modifies this, stream
      ensures Valid() && r == Body() && read
    {
      if read {
        return result;
      }
      read := true;
      if stream == null {
        result := NOTHING;
        return NOTHING;
      }
      result := stream.ReadAll();
      r := result;
    }

    // No context for a body that cannot be read; otherwise one context for the
    // whole body, the same object every time.
    method Context() returns (r: BodyContext?)
      requires Valid()
      modifies this, stream
      ensures Valid()
      ensures read && (r == null <==> Body().failed)
      ensures r != null ==> r.raw == Body().bytes && r == contextValue
      ensures old(contextValue) != null ==> r == old(contextValue)
      ensures r != null && old(contextValue) == null ==> fresh(r) && r.parsed == None
    {
      if contextValue != null {
        return contextValue;
      }
      var body := Bytes();
      if body.failed {
        return null;
      }
      contextValue := new BodyContext(body.bytes);
      r := contextValue;
    }

    // What a recorded event keeps: the whole body if matching or rendering has read
    // it before, or if it is announced and can be read.
    method BytesForRecording() returns (r: string)
      requires Valid()
      modifies this, stream
      ensures Valid()
      ensures r == if old(read) || (contentLength != 0 && !Body().failed) then Body().bytes else ""
    {
      if read {
        return result.bytes;
      }
      if stream == null || contentLength == 0 {
        return "";
      }
      var body := Bytes();
      if body.failed {
        return "";
      }
      r := body.bytes;
    }
  }

  // One request, from matching to recording: whichever of them look at the body,
  // they see the same one. A body that rendering needs and cannot read is answered
  // without being recorded.
  method ServeAndRecord(cache: RequestBodyCache, matching: bool, rendering: bool, decode: string -> Option<Json>)
    returns (matched: BodyContext?, json: Option<Json>, recorded: Option<string>)
    requires cache.Valid() && !cache.read && cache.contextValue == null
    modifies cache, cache.stream
    ensures cache.Valid()
    ensures matching ==> if cache.Body().failed then matched == null
                         else matched != null && matched.raw == cache.Body().bytes
    ensures rendering && !cache.Body().failed ==> json == decode(cache.Body().bytes)
    ensures recorded == None <==> rendering && cache.Body().failed
    ensures recorded.Some? ==>
      recorded.value == if matching || rendering || (cache.contentLength != 0 && !cache.Body().failed)
                        then cache.Body().bytes else ""
  {
    matched, json := null, None;
    if matching {
      matched := cache.Context();
    }
    if rendering {
      var context := cache.Context();
      if context == null {
        return matched, None, None;
      }
      json := context.Parsed(decode);
    }
    var bytes := cache.BytesForRecording();
    recorded := Some(bytes);
  }
}
