/** The first half of the stream's `data` handler: a decoded chunk is split on line feeds,
    each line loses one leading `data: ` and its surrounding whitespace, and empty lines go. */
module ChunkDecoder {
  import opened Text
  import opened Seqs

  const DataPrefix: string := "data: "

  predicate StartsWith(s: string, prefix: string)
  {
    |prefix| <= |s| && s[..|prefix|] == prefix
  }

  /** The anchored, non-global replacement of the `data: ` prefix by nothing: at most one
      prefix goes, and only from the start of the line. */
  function StripDataPrefix(line: string): (r: string)
    ensures StartsWith(line, DataPrefix) ==> line == DataPrefix + r
    ensures !StartsWith(line, DataPrefix) ==> r == line
  {
    if StartsWith(line, DataPrefix) then line[|DataPrefix|..] else line
  }

  /** One mapped line: prefix stripped, then trimmed. */
  function CleanLine(line: string): (r: string)
    ensures Trimmed(r)
  {
    Trim(StripDataPrefix(line))
  }

  function CleanLines(lines: seq<string>): (r: seq<string>)
    ensures |r| == |lines|
    ensures forall i :: 0 <= i < |r| ==> r[i] == CleanLine(lines[i])
  {
    seq(|lines|, i requires 0 <= i < |lines| => CleanLine(lines[i]))
  }

  /** The lines the handler loops over for one chunk: the cleaned lines that are not
      empty, in their order in the chunk. */
  function DecodeLines(chunk: string): seq<string>
  {
    Without(CleanLines(SplitOn(chunk, '\n')), "")
  }

  /** Every decoded line is non-empty and has no whitespace at either end. */
  lemma DecodeLinesShape(chunk: string)
    ensures forall i :: 0 <= i < |DecodeLines(chunk)| ==> DecodeLines(chunk)[i] != "" && Trimmed(DecodeLines(chunk)[i])
  {
    var cleaned := CleanLines(SplitOn(chunk, '\n'));
    var r := DecodeLines(chunk);
    forall i | 0 <= i < |r|
      ensures Trimmed(r[i])
    {
      var j :| 0 <= j < |cleaned| && cleaned[j] == r[i];
    }
  }

  /** The decoded lines are the non-empty cleaned lines of the chunk, each as often as it
      occurs there and in the chunk's order. */
  lemma DecodeLinesOrder(chunk: string)
    ensures SubsequenceOf(DecodeLines(chunk), CleanLines(SplitOn(chunk, '\n')))
    ensures forall x :: x != "" ==> multiset(DecodeLines(chunk))[x] == multiset(CleanLines(SplitOn(chunk, '\n')))[x]
  {
    WithoutKeepsOthers(CleanLines(SplitOn(chunk, '\n')), "");
  }

  /** Each provider frame written as `data: <payload>`. */
  function Framed(payloads: seq<string>): (r: seq<string>)
    ensures |r| == |payloads|
    ensures forall i :: 0 <= i < |r| ==> r[i] == DataPrefix + payloads[i]
  {
    seq(|payloads|, i requires 0 <= i < |payloads| => DataPrefix + payloads[i])
  }

  /** Cleaning undoes framing a trimmed payload. */
  lemma CleanFramedLine(payload: string)
    requires Trimmed(payload)
    ensures CleanLine(DataPrefix + payload) == payload
  {
    var line := DataPrefix + payload;
    assert line[..|DataPrefix|] == DataPrefix;
    assert line[|DataPrefix|..] == payload;
    TrimTrimmed(payload);
  }

  /** A chunk with no text yields no lines. */
  lemma DecodeEmptyChunk()
    ensures DecodeLines("") == []
  {
    assert SplitOn("", '\n') == [""];
    TrimTrimmed("");
    assert CleanLines([""]) == [""];
  }

  lemma CleanFramedLines(payloads: seq<string>)
    requires forall i :: 0 <= i < |payloads| ==> Trimmed(payloads[i])
    ensures CleanLines(Framed(payloads)) == payloads
  {
    var framed := Framed(payloads);
    forall i | 0 <= i < |framed|
      ensures CleanLines(framed)[i] == payloads[i]
    {
      CleanFramedLine(payloads[i]);
    }
  }

  /** Round trip: a chunk made of `data: ` lines carrying trimmed, non-empty payloads
      decodes to exactly those payloads, in order. */
  lemma DecodeFramedLines(payloads: seq<string>)
    requires forall i :: 0 <= i < |payloads| ==> payloads[i] != "" && Trimmed(payloads[i]) && '\n' !in payloads[i]
    ensures DecodeLines(Join(Framed(payloads), "\n")) == payloads
  {
    if payloads == [] {
      DecodeEmptyChunk();
    } else {
      var framed := Framed(payloads);
      forall i | 0 <= i < |framed|
        ensures '\n' !in framed[i]
      {
        assert framed[i] == DataPrefix + payloads[i];
      }
      SplitOnJoin(framed, '\n');
      assert "" !in payloads;
      WithoutAbsent(payloads, "");
      CleanFramedLines(payloads);
    }
  }
}
