/**
 * Stored media files (`src/impls/rest/upload.rs` and `download.rs`): a name
 * line, a type line and the uploaded bytes. Uploads write the format chunk by
 * chunk, downloads parse it back and stream the rest.
 */
module Media {
  import opened Wrappers
  import opened Bytes

  const SEPARATOR: byte := 10

  /** "unknown" */
  const UNKNOWN: bytes := [117, 110, 107, 110, 111, 119, 110]

  /** "application/octet-stream" */
  const OCTET_STREAM: bytes :=
    [97, 112, 112, 108, 105, 99, 97, 116, 105, 111, 110, 47, 111, 99, 116, 101, 116, 45, 115, 116, 114, 101, 97, 109]

  function Flatten(chunks: seq<bytes>): bytes {
    if |chunks| == 0 then [] else chunks[0] + Flatten(chunks[1..])
  }

  lemma {:induction false} FlattenAppend(chunks: seq<bytes>, chunk: bytes)
    ensures Flatten(chunks + [chunk]) == Flatten(chunks) + chunk
  {
    if |chunks| == 0 {
      assert (chunks + [chunk])[1..] == [];
    } else {
      assert (chunks + [chunk])[1..] == chunks[1..] + [chunk];
      FlattenAppend(chunks[1..], chunk);
    }
  }

  // ---- the format ----

  function Printed(name: bytes, mime: bytes, body: bytes): bytes {
    name + [SEPARATOR] + mime + [SEPARATOR] + body
  }

  /** `read_until`: up to and including the first separator, or everything. */
  function Line(data: bytes): (line: bytes)
    ensures line <= data
  {
    if |data| == 0 then [] else if data[0] == SEPARATOR then [SEPARATOR] else [data[0]] + Line(data[1..])
  }

  /** `Vec::pop`, which drops a data byte when the separator is missing. */
  function Chopped(line: bytes): bytes {
    if |line| == 0 then [] else line[..|line| - 1]
  }

  datatype Parsed = Parsed(name: bytes, mime: bytes, rest: bytes)

  /** `read_bufs` on a non-JPEG file, and what the reader has left. */
  function Parse(data: bytes): Parsed {
    var line1 := Line(data);
    var line2 := Line(data[|line1|..]);
    Parsed(Chopped(line1), Chopped(line2), data[|line1|..][|line2|..])
  }

  /** `calculate_range` on a non-JPEG file: the two lines and their separators come off the front. */
  function ContentStart(parsed: Parsed): nat {
    |parsed.name| + |parsed.mime| + 2
  }

  lemma {:induction false} LineOf(name: bytes, tail: bytes)
    requires SEPARATOR !in name
    ensures Line(name + [SEPARATOR] + tail) == name + [SEPARATOR]
  {
    if |name| > 0 {
      assert (name + [SEPARATOR] + tail)[1..] == name[1..] + [SEPARATOR] + tail;
      LineOf(name[1..], tail);
      assert name == [name[0]] + name[1..];
    }
  }

  lemma {:induction false} LineHasNoSeparator(data: bytes)
    ensures SEPARATOR !in Chopped(Line(data))
  {
    if |data| > 0 && data[0] != SEPARATOR {
      LineHasNoSeparator(data[1..]);
      if |Line(data[1..])| > 0 {
        assert Chopped(Line(data)) == [data[0]] + Chopped(Line(data[1..]));
      }
    }
  }

  /** Parsing gives back what was printed exactly when neither name nor type contains a line break. */
  lemma PrintThenParseIff(name: bytes, mime: bytes, body: bytes)
    ensures Parse(Printed(name, mime, body)) == Parsed(name, mime, body)
       <==> SEPARATOR !in name && SEPARATOR !in mime
  {
    var data := Printed(name, mime, body);
    if SEPARATOR !in name && SEPARATOR !in mime {
      assert data == name + [SEPARATOR] + (mime + [SEPARATOR] + body);
      LineOf(name, mime + [SEPARATOR] + body);
      LineOf(mime, body);
      assert data[|name| + 1..] == mime + [SEPARATOR] + body;
      assert (mime + [SEPARATOR] + body)[|mime| + 1..] == body;
    } else {
      LineHasNoSeparator(data);
      LineHasNoSeparator(data[|Line(data)|..]);
    }
  }

  lemma {:induction false} LineStops(data: bytes)
    ensures forall j | 0 <= j < |Line(data)| - 1 :: data[j] != SEPARATOR
    ensures |data| > 0 ==> |Line(data)| > 0
    ensures Line(data) == data || (|Line(data)| > 0 && data[|Line(data)| - 1] == SEPARATOR)
  {
    if |data| > 0 && data[0] != SEPARATOR {
      LineStops(data[1..]);
    }
  }

  /** A separator somewhere before the last byte. */
  predicate HasHeader(data: bytes) {
    |data| > 0 && SEPARATOR in data[..|data| - 1]
  }

  /** `end - start` stays in range exactly when the file has a separator before its last byte. */
  lemma RangeIsOrderedIff(data: bytes)
    ensures ContentStart(Parse(data)) <= |data| <==> HasHeader(data)
  {
    var line := Line(data);
    var rest := data[|line|..];
    LineStops(data);
    LineStops(rest);
    if HasHeader(data) {
      var i :| 0 <= i < |data| - 1 && data[..|data| - 1][i] == SEPARATOR;
      assert data[i] == SEPARATOR;
      assert |line| <= i + 1;
    } else {
      assert forall i | 0 <= i < |data| - 1 :: data[..|data| - 1][i] == data[i];
      assert |line| == |data|;
    }
  }

  /** The seek position is where the parser stops. */
  lemma ContentIsRest(data: bytes)
    requires HasHeader(data)
    ensures ContentStart(Parse(data)) <= |data|
    ensures data[ContentStart(Parse(data))..] == Parse(data).rest
  {
    RangeIsOrderedIff(data);
    var line := Line(data);
    var rest := data[|line|..];
    LineStops(data);
    LineStops(rest);
    assert |line| > 0;
    assert ContentStart(Parse(data)) == |line| + |Line(rest)| by {
      assert |rest| > 0 by {
        HeaderEndsEarly(data);
      }
    }
  }

  lemma HeaderEndsEarly(data: bytes)
    requires HasHeader(data)
    ensures |Line(data)| < |data|
  {
    var i :| 0 <= i < |data| - 1 && data[..|data| - 1][i] == SEPARATOR;
    assert data[i] == SEPARATOR;
    LineStops(data);
  }

  // ---- upload ----

  datatype Error = MissingFiles

  /** One multipart field as the handler sees it; `sniffed` is the type guessed from its first chunk. */
  datatype Part = Part(fileName: Option<bytes>, contentType: Option<bytes>, sniffed: Option<bytes>, chunks: seq<bytes>)

  function NameOf(part: Part): bytes {
    if part.fileName.Some? then part.fileName.value else UNKNOWN
  }

  function MimeOf(part: Part): bytes {
    if part.contentType.Some? then part.contentType.value
    else if part.sniffed.Some? then part.sniffed.value
    else OCTET_STREAM
  }

  class MediaRoot {
    var files: map<bytes, bytes>

    constructor ()
      ensures files == map[]
    {
      files := map[];
    }

    method Append(id: bytes, data: bytes)
      requires id in files
      modifies this
      ensures files == old(files)[id := old(files)[id] + data]
    {
      files := files[id := files[id] + data];
    }

    /** The two header lines. */
    method WritePrefix(id: bytes, part: Part)
      requires id in files && files[id] == []
      modifies this
      ensures files == old(files)[id := NameOf(part) + [SEPARATOR] + MimeOf(part) + [SEPARATOR]]
    {
      Append(id, NameOf(part));
      Append(id, [SEPARATOR]);
      Append(id, MimeOf(part));
      Append(id, [SEPARATOR]);
      assert files[id] == NameOf(part) + [SEPARATOR] + MimeOf(part) + [SEPARATOR];
    }

    /** The chunks as they come in. */
    method WriteChunks(id: bytes, chunks: seq<bytes>)
      requires id in files
      modifies this
      ensures files == old(files)[id := old(files)[id] + Flatten(chunks)]
    {
      var next := 0;
      assert old(files)[id] + Flatten(chunks[..0]) == files[id];
      while next < |chunks|
        invariant 0 <= next <= |chunks|
        invariant id in files && files == old(files)[id := files[id]]
        invariant files[id] == old(files)[id] + Flatten(chunks[..next])
      {
        assert chunks[..next + 1] == chunks[..next] + [chunks[next]];
        FlattenAppend(chunks[..next], chunks[next]);
        assert old(files)[id] + Flatten(chunks[..next + 1]) == files[id] + chunks[next];
        Append(id, chunks[next]);
        next := next + 1;
      }
      assert chunks[..|chunks|] == chunks;
    }

    /** `write_file`; `id` is the drawn name. An existing file is left alone. */
    method WriteFile(id: bytes, part: Part) returns (r: Result<bytes, Error>)
      modifies this
      ensures id in old(files) ==> r == Ok(id) && files == old(files)
      ensures id !in old(files) && part.chunks == [] ==> r == Err(MissingFiles) && files == old(files)
      ensures id !in old(files) && part.chunks != [] ==>
                r == Ok(id) && files == old(files)[id := Printed(NameOf(part), MimeOf(part), Flatten(part.chunks))]
    {
      if id in files {
        return Ok(id);
      }
      if part.chunks == [] {
        return Err(MissingFiles);
      }
      files := files[id := []];
      WritePrefix(id, part);
      ghost var prefix := files[id];
      Append(id, part.chunks[0]);
      WriteChunks(id, part.chunks[1..]);
      assert prefix + part.chunks[0] + Flatten(part.chunks[1..]) == prefix + Flatten(part.chunks);
      assert files == old(files)[id := files[id]];
      r := Ok(id);
    }
  }

  // ---- reading the header ----

  lemma LineStep(data: bytes, at: nat)
    requires at < |data|
    ensures Line(data[at..]) == if data[at] == SEPARATOR then [SEPARATOR] else [data[at]] + Line(data[at + 1..])
  {
    assert data[at..][1..] == data[at + 1..];
  }

  lemma Regroup(line: bytes, b: byte, rest: bytes)
    ensures line + ([b] + rest) == (line + [b]) + rest
  {
  }

  method ReadLine(data: bytes, start: nat) returns (line: bytes)
    requires start <= |data|
    ensures line == Line(data[start..])
  {
    line := [];
    var at := start;
    ghost var whole := Line(data[start..]);
    ghost var left := whole;
    while at < |data|
      invariant start <= at <= |data|
      invariant left == Line(data[at..])
      invariant whole == line + left
    {
      LineStep(data, at);
      if data[at] == SEPARATOR {
        line := line + [SEPARATOR];
        return;
      }
      left := Line(data[at + 1..]);
      Regroup(line, data[at], left);
      line := line + [data[at]];
      at := at + 1;
    }
    assert left == [];
  }

  /**
   * `get_file_full` on a non-JPEG file: the lines, the content, and its
   * announced size. Without a header the size wraps around and reserving the
   * buffer panics (None).
   */
  method GetFileFull(data: bytes) returns (r: Option<(Parsed, nat)>)
    ensures r.Some? <==> HasHeader(data)
    ensures r.Some? ==> r.value.0 == Parse(data) && r.value.1 == |Parse(data).rest|
  {
    var line1 := ReadLine(data, 0);
    assert data[0..] == data;
    var line2 := ReadLine(data, |line1|);
    var parsed := Parsed(Chopped(line1), Chopped(line2), data[|line1|..][|line2|..]);
    assert parsed == Parse(data);
    RangeIsOrderedIff(data);
    if |parsed.name| + |parsed.mime| + 2 > |data| {
      return None;
    }
    ContentIsRest(data);
    r := Some((parsed, |data| - (|parsed.name| + |parsed.mime| + 2)));
  }

  // ---- streaming ----

  /** `end - start`, which wraps around when the file has no header. */
  function Owed(start: nat, end: nat): nat {
    if start <= end then end - start else (end - start) % TWO_64
  }

  /** One read of the file: what it holds by then, and how much the reader asks for. */
  datatype Read = Read(content: bytes, want: nat)

  /** The stream's position and how many bytes it still owes. */
  datatype Stream = Stream(pos: nat, len: nat)

  function ReadCount(stream: Stream, read: Read): nat {
    if stream.pos >= |read.content| then 0
    else if read.want < |read.content| - stream.pos then read.want
    else |read.content| - stream.pos
  }

  /** One poll: the chunk it yields, if any, cut to what is owed. */
  function Poll(stream: Stream, read: Read): (Stream, Option<bytes>) {
    var n := ReadCount(stream, read);
    if stream.len == 0 || n == 0 then (stream, None)
    else
      var chunk := read.content[stream.pos..stream.pos + n];
      if n > stream.len then (Stream(stream.pos + n, 0), Some(chunk[..stream.len]))
      else (Stream(stream.pos + n, stream.len - n), Some(chunk))
  }

  /** All chunks of a stream; the first empty poll ends it. */
  function Streamed(stream: Stream, polls: seq<Read>): seq<bytes>
    decreases |polls|
  {
    if |polls| == 0 then []
    else
      match Poll(stream, polls[0])
      case (_, None) => []
      case (next, Some(chunk)) => [chunk] + Streamed(next, polls[1..])
  }

  /** Whatever happens to the file meanwhile, no more than the announced bytes are sent. */
  lemma {:induction false} NeverTooMuch(stream: Stream, polls: seq<Read>)
    ensures |Flatten(Streamed(stream, polls))| <= stream.len
    decreases |polls|
  {
    if |polls| > 0 && Poll(stream, polls[0]).1.Some? {
      NeverTooMuch(Poll(stream, polls[0]).0, polls[1..]);
    }
  }

  /** The file still begins with the bytes it had when it was opened, and every read asks for something. */
  ghost predicate KeepsFile(file: bytes, polls: seq<Read>) {
    forall i | 0 <= i < |polls| :: file <= polls[i].content && polls[i].want > 0
  }

  /** What the stream still has to send. */
  function Due(file: bytes, stream: Stream): bytes
    requires stream.len == 0 || stream.pos + stream.len == |file|
  {
    if stream.len == 0 then [] else file[stream.pos..]
  }

  lemma OnePoll(file: bytes, stream: Stream, read: Read)
    requires stream.len > 0 && stream.pos + stream.len == |file|
    requires file <= read.content && read.want > 0
    ensures var (next, chunk) := Poll(stream, read);
            && chunk.Some? && next.len < stream.len
            && (next.len == 0 || next.pos + next.len == |file|)
            && chunk.value + Due(file, next) == Due(file, stream)
  {
    var n := ReadCount(stream, read);
    assert file == read.content[..|file|];
    if n < stream.len {
      assert read.content[stream.pos..stream.pos + n] == file[stream.pos..stream.pos + n];
    } else {
      assert read.content[stream.pos..stream.pos + n][..stream.len] == file[stream.pos..];
    }
  }

  /** With enough reads of a file that only grows, exactly the announced bytes arrive. */
  lemma {:induction false} StreamsExactly(file: bytes, stream: Stream, polls: seq<Read>)
    requires stream.len == 0 || stream.pos + stream.len == |file|
    requires KeepsFile(file, polls) && |polls| >= stream.len
    ensures Flatten(Streamed(stream, polls)) == Due(file, stream)
    decreases |polls|
  {
    if stream.len > 0 {
      var (next, chunk) := Poll(stream, polls[0]);
      OnePoll(file, stream, polls[0]);
      StreamsExactly(file, next, polls[1..]);
      var later := Streamed(next, polls[1..]);
      assert Streamed(stream, polls) == [chunk.value] + later;
      assert ([chunk.value] + later)[1..] == later;
    }
  }

  /** Streaming from any position to the end. */
  lemma StreamsTail(file: bytes, start: nat, polls: seq<Read>)
    requires start <= |file| && KeepsFile(file, polls) && |polls| >= |file| - start
    ensures Flatten(Streamed(Stream(start, Owed(start, |file|)), polls)) == file[start..]
  {
    StreamsExactly(file, Stream(start, |file| - start), polls);
  }

  /** `file_stream` after its seek, as an object that is polled. */
  class FileStream {
    var pos: nat
    var len: nat

    ghost function View(): Stream
      reads this
    {
      Stream(pos, len)
    }

    constructor (start: nat, end: nat)
      ensures View() == Stream(start, Owed(start, end))
    {
      pos := start;
      len := if start <= end then end - start else (end - start) % TWO_64;
    }

    method PollNext(read: Read) returns (chunk: Option<bytes>)
      modifies this
      ensures (View(), chunk) == Poll(old(View()), read)
    {
      if len == 0 {
        return None;
      }
      var available := if pos < |read.content| then |read.content| - pos else 0;
      var n := if read.want < available then read.want else available;
      if n == 0 {
        return None;
      }
      var piece := read.content[pos..pos + n];
      pos := pos + n;
      if n > len {
        piece := piece[..len];
        len := 0;
      } else {
        len := len - n;
      }
      chunk := Some(piece);
    }
  }

  /** Every file with a header streams exactly what the parser leaves, whatever the read sizes. */
  lemma AnyFileStreams(file: bytes, polls: seq<Read>)
    requires HasHeader(file) && KeepsFile(file, polls)
    requires |polls| >= |Parse(file).rest|
    ensures var start := ContentStart(Parse(file));
            && Owed(start, |file|) == |Parse(file).rest|
            && Flatten(Streamed(Stream(start, Owed(start, |file|)), polls)) == Parse(file).rest
  {
    ContentIsRest(file);
    StreamsTail(file, ContentStart(Parse(file)), polls);
  }

  /** What an upload leaves on disk. */
  function Stored(part: Part): bytes {
    Printed(NameOf(part), MimeOf(part), Flatten(part.chunks))
  }

  lemma StoredHasHeader(part: Part)
    requires SEPARATOR !in NameOf(part) && SEPARATOR !in MimeOf(part)
    ensures HasHeader(Stored(part))
    ensures Parse(Stored(part)) == Parsed(NameOf(part), MimeOf(part), Flatten(part.chunks))
  {
    PrintThenParseIff(NameOf(part), MimeOf(part), Flatten(part.chunks));
    RangeIsOrderedIff(Stored(part));
  }

  /** The name and type that come back: the client's own, else the sniffed type, else the defaults. */
  lemma HeaderComesBack(part: Part)
    requires SEPARATOR !in NameOf(part) && SEPARATOR !in MimeOf(part)
    ensures var Parsed(name, mime, _) := Parse(Stored(part));
            && Some(name) == (match part.fileName case None => Some(UNKNOWN) case given => given)
            && Some(mime) == (match part.contentType
                              case None => (match part.sniffed case None => Some(OCTET_STREAM) case guess => guess)
                              case given => given)
  {
    StoredHasHeader(part);
  }

  /**
   * Upload, then download: for any chunking of the upload and any read sizes,
   * the streamed chunks are the uploaded bytes and the announced length is
   * their number.
   */
  lemma UploadThenDownload(part: Part, polls: seq<Read>)
    requires SEPARATOR !in NameOf(part) && SEPARATOR !in MimeOf(part)
    requires KeepsFile(Stored(part), polls) && |polls| >= |Flatten(part.chunks)|
    ensures var start := ContentStart(Parse(Stored(part)));
            var owed := Owed(start, |Stored(part)|);
            && owed == |Flatten(part.chunks)|
            && Flatten(Streamed(Stream(start, owed), polls)) == Flatten(part.chunks)
  {
    StoredHasHeader(part);
    AnyFileStreams(Stored(part), polls);
  }
}
