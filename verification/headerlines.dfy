/** The header section shared by requests and responses: one `name: value` line per
    value, ended by an empty line. Reading lower-cases and trims each name, trims
    each value, skips lines whose name is empty and rejects lines without a colon;
    writing emits every value of every name in the collection's order. */
module HeaderLines {
  import opened Wrappers
  import opened Faults
  import opened Text
  import opened Headers
  import opened Client

  /** Text that can sit on one line of a head: octets only, and no CR, so no CR LF. */
  predicate LineText(s: string) {
    Ascii(s) && '\r' !in s
  }

  /** Encoded line text holds no CR LF pair. */
  lemma LineTextNoCrlf(s: string)
    requires LineText(s)
    ensures NoCrlf(Encode(s))
  {
    forall i | 0 <= i < |Encode(s)| - 1 ensures Encode(s)[i] != CR {
      assert s[i] != '\r' && s[i] as int < 128;
    }
  }

  /** The line a field is written as, without its CR LF. */
  function FieldLine(f: Field): string {
    f.0 + ": " + f.1
  }

  /** A stored field: a non-empty lower-case name and a trimmed value. */
  predicate StoredField(f: Field) {
    f.0 != "" && Lower(f.0) == f.0 && Trimmed(f.1)
  }

  /** A field that survives being written and read back: its name is also trimmed
      and colon-free, and its line fits the line bound. */
  predicate FieldFits(f: Field, maxLine: int) {
    && StoredField(f)
    && Trimmed(f.0) && ':' !in f.0
    && LineText(FieldLine(f))
    && |FieldLine(f)| + 2 <= maxLine
  }

  /** One header line: no colon is an error, an empty name is skipped, otherwise the
      name before the first colon and the value after it, both trimmed, the name
      lower-cased. */
  function ParseFieldLine(line: string): (r: Result<Option<Field>>)
    ensures r == Fail(MalformedHeaderLine) <==> ':' !in line
    ensures r.Fail? ==> r.error == MalformedHeaderLine
    ensures r.Ok? && r.value.Some? ==> StoredField(r.value.value)
    ensures r.Ok? ==>
      var i := IndexOf(line, ':');
      && (r.value.None? <==> Trim(line[..i]) == "")
      && (r.value.Some? ==> r.value.value == (Lower(Trim(line[..i])), Trim(line[i + 1..])))
  {
    var i := IndexOf(line, ':');
    if i == -1 then Fail(MalformedHeaderLine)
    else
      var key := Lower(Trim(line[..i]));
      if key == "" then Ok(None)
      else
        LowerIdempotent(Trim(line[..i]));
        TrimIsTrimmed(line[i + 1..]);
        Ok(Some((key, Trim(line[i + 1..]))))
  }

  /** A field written by the serialiser parses back as that field. */
  lemma ParseFieldLineOf(f: Field)
    requires StoredField(f) && Trimmed(f.0) && ':' !in f.0
    ensures ParseFieldLine(FieldLine(f)) == Ok(Some(f))
  {
    var (k, v) := f;
    var line := FieldLine(f);
    assert line[|k|] == ':';
    assert line[..|k|] == k;
    var i := IndexOf(line, ':');
    assert i == |k|;
    TrimOfTrimmed(k);
    assert line[i + 1..] == [' '] + v;
    TrimSpacePadded(v);
  }

  /** `rest` follows an empty line at the end of `input`: what was read ends with a
      CR LF that starts the input or follows another CR LF. */
  predicate AfterEmptyLine(input: Bytes, rest: Bytes) {
    && |rest| + 2 <= |input|
    && input[|input| - |rest| - 2..] == CRLF + rest
    && (|input| == |rest| + 2 || (|rest| + 4 <= |input| && input[|input| - |rest| - 4..|input| - |rest| - 2] == CRLF))
  }

  /** The field lines up to the empty line that ends the head, skipped lines left out.
      A failed line read fails the section, and so does a non-empty line without a
      colon. */
  function ReadFieldLines(input: Bytes, maxLine: int): (r: Result<Parsed<seq<Field>>>)
    ensures r.Ok? ==> AllStored(r.value.value)
    ensures r.Ok? ==> |r.value.rest| + 2 <= |input|
    ensures r.Ok? ==> AfterEmptyLine(input, r.value.rest)
    ensures ReadLine(input, maxLine).Fail? ==> r == Fail(ReadLine(input, maxLine).error)
    ensures ReadLine(input, maxLine).Ok? && Decode(ReadLine(input, maxLine).value.value) == "" ==>
      r == Ok(Parsed([], ReadLine(input, maxLine).value.rest))
    ensures ReadLine(input, maxLine).Ok? && Decode(ReadLine(input, maxLine).value.value) != ""
            && ':' !in Decode(ReadLine(input, maxLine).value.value) ==>
      r == Fail(MalformedHeaderLine)
    decreases |input|
  {
    var line := ReadLine(input, maxLine);
    if line.Fail? then Fail(line.error)
    else
      var text := Decode(line.value.value);
      if text == "" then Ok(Parsed([], line.value.rest))
      else
        var field := ParseFieldLine(text);
        if field.Fail? then Fail(field.error)
        else
          var more := ReadFieldLines(line.value.rest, maxLine);
          AfterEmptyLineOf(input, line.value.value, line.value.rest, more);
          if more.Fail? then more
          else if field.value.None? then more
          else
            StoredCons(field.value.value, more.value.value);
            Ok(Parsed([field.value.value] + more.value.value, more.value.rest))
  }

  /** An empty line found after one more line is still found after it. */
  lemma AfterEmptyLineOf(input: Bytes, line: Bytes, tail: Bytes, more: Result<Parsed<seq<Field>>>)
    requires input == line + CRLF + tail
    requires more.Ok? ==> AfterEmptyLine(tail, more.value.rest)
    ensures more.Ok? ==> AfterEmptyLine(input, more.value.rest)
  {
    if more.Ok? {
      var rest := more.value.rest;
      assert input[|input| - |rest| - 2..] == tail[|tail| - |rest| - 2..];
      if |tail| == |rest| + 2 {
        assert input[|input| - |rest| - 4..|input| - |rest| - 2] == CRLF;
      } else {
        assert input[|input| - |rest| - 4..|input| - |rest| - 2] == tail[|tail| - |rest| - 4..|tail| - |rest| - 2];
      }
    }
  }

  predicate AllStored(fs: seq<Field>) {
    forall i :: 0 <= i < |fs| ==> StoredField(fs[i])
  }

  lemma StoredCons(f: Field, fs: seq<Field>)
    requires StoredField(f) && AllStored(fs)
    ensures AllStored([f] + fs)
  {
    assert forall i :: 1 <= i < |fs| + 1 ==> ([f] + fs)[i] == fs[i - 1];
  }

  /** `AddAll`, keeping the collection's invariant. */
  function AddAllValid(h: HeaderCollection, fs: seq<Field>): (r: HeaderCollection)
    ensures r == AddAll(h, fs)
    ensures Valid(h) ==> Valid(r)
  {
    if |fs| == 0 then h
    else Add(AddAllValid(h, fs[..|fs| - 1]), fs[|fs| - 1].0, fs[|fs| - 1].1)
  }

  /** Every field as `name: value` CR LF, then the empty line. */
  function WriteFieldLines(fs: seq<Field>): Bytes {
    if |fs| == 0 then CRLF else Encode(FieldLine(fs[0])) + CRLF + WriteFieldLines(fs[1..])
  }

  /** Fields every one of which survives the round trip. */
  predicate AllFit(fs: seq<Field>, maxLine: int) {
    forall i :: 0 <= i < |fs| ==> FieldFits(fs[i], maxLine)
  }

  /** One written field in front of readable field lines reads as one more field. */
  lemma FieldLinesCons(f: Field, tail: Bytes, more: seq<Field>, rest: Bytes, maxLine: int)
    requires FieldFits(f, maxLine)
    requires ReadFieldLines(tail, maxLine) == Ok(Parsed(more, rest))
    ensures ReadFieldLines(Encode(FieldLine(f)) + CRLF + tail, maxLine) == Ok(Parsed([f] + more, rest))
  {
    var line := FieldLine(f);
    LineTextNoCrlf(line);
    ReadLineOfLine(Encode(line), tail, maxLine);
    DecodeEncode(line);
    ParseFieldLineOf(f);
  }

  lemma WriteFieldLinesCons(fs: seq<Field>, rest: Bytes)
    requires |fs| > 0
    ensures WriteFieldLines(fs) + rest == Encode(FieldLine(fs[0])) + CRLF + (WriteFieldLines(fs[1..]) + rest)
  {
  }

  /** Written field lines read back as the same fields, in order, leaving the rest. */
  lemma {:induction false} ReadWriteFieldLines(fs: seq<Field>, rest: Bytes, maxLine: int)
    requires AllFit(fs, maxLine) && maxLine >= 2
    ensures ReadFieldLines(WriteFieldLines(fs) + rest, maxLine) == Ok(Parsed(fs, rest))
    decreases |fs|
  {
    if |fs| == 0 {
      ReadEndOfHead(rest, maxLine);
    } else {
      assert AllFit(fs[1..], maxLine) by {
        assert forall i :: 0 <= i < |fs| - 1 ==> fs[1..][i] == fs[i + 1];
      }
      ReadWriteFieldLines(fs[1..], rest, maxLine);
      ReadWriteFieldLinesStep(fs, rest, maxLine);
    }
  }

  /** The empty line alone ends the header section. */
  lemma ReadEndOfHead(rest: Bytes, maxLine: int)
    requires maxLine >= 2
    ensures ReadFieldLines(WriteFieldLines([]) + rest, maxLine) == Ok(Parsed([], rest))
  {
    ReadLineOfLine([], rest, maxLine);
    assert WriteFieldLines([]) + rest == [] + CRLF + rest;
  }

  lemma ReadWriteFieldLinesStep(fs: seq<Field>, rest: Bytes, maxLine: int)
    requires |fs| > 0 && FieldFits(fs[0], maxLine)
    requires ReadFieldLines(WriteFieldLines(fs[1..]) + rest, maxLine) == Ok(Parsed(fs[1..], rest))
    ensures ReadFieldLines(WriteFieldLines(fs) + rest, maxLine) == Ok(Parsed(fs, rest))
  {
    var more := fs[1..];
    var tail := WriteFieldLines(more) + rest;
    FieldLinesCons(fs[0], tail, more, rest, maxLine);
    WriteFieldLinesCons(fs, rest);
    var s := WriteFieldLines(fs) + rest;
    assert s == Encode(FieldLine(fs[0])) + CRLF + tail;
    assert [fs[0]] + more == fs;
    assert ReadFieldLines(s, maxLine) == Ok(Parsed([fs[0]] + more, rest));
  }

  /** `WriteHeaderAsync`'s header section for a collection. */
  function WriteHeaders(h: HeaderCollection): Bytes
    requires Valid(h)
  {
    WriteFieldLines(Fields(h))
  }

  /** A collection whose every field survives the round trip. */
  ghost predicate HeadersFit(h: HeaderCollection, maxLine: int) {
    Valid(h) && AllFit(Fields(h), maxLine)
  }

  /** A written header section, read into an empty collection, rebuilds the
      collection exactly. */
  lemma ReadWriteHeaders(h: HeaderCollection, rest: Bytes, maxLine: int)
    requires HeadersFit(h, maxLine) && maxLine >= 2
    ensures ReadFieldLines(WriteHeaders(h) + rest, maxLine) == Ok(Parsed(Fields(h), rest))
    ensures AddAll(Empty, Fields(h)) == h
  {
    ReadWriteFieldLines(Fields(h), rest, maxLine);
    AddAllFields(h);
  }
}
