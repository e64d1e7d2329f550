/** The acquisition reader of `git cat-file --batch` output: source blobs by object ID. */
module SourceContents {
  import opened Prelude
  import opened Decimal
  import opened LineText
  import opened BlobBatch

  const MaxSourceTotalBytes := 32 * 1024 * 1024

  /** Python's int() on text, as far as the reader depends on it: an abstract partial function. */
  type IntReader = string -> Option<int>

  ghost predicate ReadsDecimals(int_: IntReader) {
    forall n: nat :: int_(Dec(n)) == Some(n)
  }

  /** bytes.splitlines(): breaks at LF, CR and CRLF, no empty last line. */
  function SplitLines(s: string): seq<string>
    decreases |s|
  {
    if s == "" then []
    else
      var n := LineEnd(s);
      if n == |s| then [s]
      else if s[n] == '\r' && n + 1 < |s| && s[n + 1] == '\n' then [s[..n]] + SplitLines(s[n + 2..])
      else [s[..n]] + SplitLines(s[n + 1..])
  }

  function LineEnd(s: string): (n: nat)
    ensures n <= |s|
    ensures n < |s| ==> s[n] == '\n' || s[n] == '\r'
  {
    if s == "" || s[0] == '\n' || s[0] == '\r' then 0 else 1 + LineEnd(s[1..])
  }

  /** The size a line announces for an expected object. */
  function AnnouncedSize(int_: IntReader, line: string, expected: string): Option<int> {
    var fields := Split(line);
    if |fields| != 3 || fields[0] != expected || fields[1] != "blob" then None else int_(fields[2])
  }

  predicate SizeLineOk(int_: IntReader, line: string, expected: string) {
    var size := AnnouncedSize(int_, line, expected);
    size.Some? && 0 <= size.value <= MaxInputBytes
  }

  /** The sizes, when every line is in order. */
  function LineSizes(int_: IntReader, requested: seq<string>, lines: seq<string>): Option<seq<nat>>
    requires |requested| == |lines|
  {
    if lines == [] then Some([])
    else if !SizeLineOk(int_, lines[0], requested[0]) then None
    else After([AnnouncedSize(int_, lines[0], requested[0]).value as nat], LineSizes(int_, requested[1..], lines[1..]))
  }

  /** One frame from the front of the content output: the blob and what follows it. */
  function HeadSource(int_: IntReader, id: string, size: nat, data: string): Option<(string, string)> {
    var n := FirstNewline(data);
    var end := n + 1 + size;
    if n == |data| || AnnouncedSize(int_, data[..n], id) != Some(size) || end >= |data| || data[end] != '\n' then None
    else Some((data[n + 1..end], data[end + 1..]))
  }

  function ReadSources(int_: IntReader, requested: seq<string>, sizes: seq<nat>, data: string): Option<seq<string>>
    requires |requested| == |sizes|
  {
    if requested == [] then if data == "" then Some([]) else None
    else
      var head := HeadSource(int_, requested[0], sizes[0], data);
      if head.None? then None
      else After([head.value.0], ReadSources(int_, requested[1..], sizes[1..], head.value.1))
  }

  /** A dictionary filled in order: a repeated ID keeps its last blob. */
  function Bind(ids: seq<string>, blobs: seq<string>): map<string, string>
    requires |ids| == |blobs|
  {
    if ids == [] then map[]
    else Bind(ids[..|ids| - 1], blobs[..|ids| - 1])[ids[|ids| - 1] := blobs[|ids| - 1]]
  }

  function Sources(int_: IntReader, requested: seq<string>, sizeOutput: string, output: string): Option<seq<string>> {
    var lines := SplitLines(sizeOutput);
    if |lines| != |requested| then None
    else
      var sizes := LineSizes(int_, requested, lines);
      if sizes.None? || |sizes.value| != |requested| || Total(sizes.value) > MaxSourceTotalBytes then None
      else ReadSources(int_, requested, sizes.value, output)
  }

  /** The framing the reader accepts: like Git's, but a size may be any text that reads as the length. */
  function LooseFrame(ids: seq<string>, raws: seq<string>, blobs: seq<string>): string
    requires |ids| == |raws| == |blobs|
  {
    if ids == [] then ""
    else Header(ids[0], raws[0]) + "\n" + (blobs[0] + "\n" + LooseFrame(ids[1..], raws[1..], blobs[1..]))
  }

  /** A size text a header can carry: no separator in it, and it reads as n. */
  predicate SizeText(int_: IntReader, raw: string, n: int) {
    ' ' !in raw && '\n' !in raw && int_(raw) == Some(n)
  }

  lemma {:induction false} FieldsHaveNoSpace(s: string)
    ensures forall f :: f in Split(s) ==> ' ' !in f
  {
    if s != "" {
      FieldsHaveNoSpace(s[1..]);
      assert Split(s[1..])[0] in Split(s[1..]);
    }
  }

  lemma AnnouncedHeader(int_: IntReader, line: string, id: string) returns (raw: string)
    requires AnnouncedSize(int_, line, id).Some?
    ensures line == Header(id, raw) && int_(raw) == AnnouncedSize(int_, line, id) && ' ' !in raw
  {
    var fields := Split(line);
    FieldsHaveNoSpace(line);
    raw := fields[2];
    JoinOfSplit(line);
    assert fields == [id, "blob", raw];
    assert fields[1..] == ["blob", raw] && ["blob", raw][1..] == [raw];
    assert JoinFields([raw]) == raw;
    assert JoinFields(["blob", raw]) == "blob" + " " + raw;
    assert JoinFields(fields) == id + " " + ("blob" + " " + raw);
  }

  lemma AnnouncedDecimal(int_: IntReader, id: string, n: nat)
    requires ReadsDecimals(int_) && ObjectIdText(id)
    ensures AnnouncedSize(int_, Header(id, Dec(n)), id) == Some(n)
  {
    ObjectIdHasNoSeparator(id);
    DigitsHaveNoSpace(Dec(n));
    ThreeFields(Header(id, Dec(n)), id, Dec(n));
  }

  /** Whatever the reader accepts is a sequence of frames with nothing after the last one. */
  lemma {:induction false} SourcesSound(
    int_: IntReader, requested: seq<string>, sizes: seq<nat>, data: string, blobs: seq<string>)
    returns (raws: seq<string>)
    requires |requested| == |sizes| && ReadSources(int_, requested, sizes, data) == Some(blobs)
    ensures |raws| == |blobs| == |requested| && Sizes(blobs) == sizes
    ensures data == LooseFrame(requested, raws, blobs)
    ensures forall i :: 0 <= i < |raws| ==> SizeText(int_, raws[i], |blobs[i]|)
  {
    hide HeadSource, Header, FirstNewline, Dec, Sizes, ReadSources, LooseFrame, SizeText;
    raws := [];
    if requested == [] {
      NoSources(int_, data);
      assert blobs == [] && sizes == [] && Sizes([]) == [];
      assert LooseFrame([], [], []) == "" by {
        LooseNothing();
      }
    } else {
      var blob, rest := SourcesSplit(int_, requested, sizes, data, blobs);
      var raw := HeadSourceSound(int_, requested[0], sizes[0], data, blob, rest);
      var more := SourcesSound(int_, requested[1..], sizes[1..], rest, blobs[1..]);
      raws := [raw] + more;
      assert raws[1..] == more;
      LooseCons(requested, raws, blobs);
      SizesCons(blobs);
      assert sizes == [sizes[0]] + sizes[1..];
    }
  }

  lemma LooseNothing()
    ensures LooseFrame([], [], []) == ""
  {
  }

  lemma LooseCons(ids: seq<string>, raws: seq<string>, blobs: seq<string>)
    requires ids != [] && |ids| == |raws| == |blobs|
    ensures LooseFrame(ids, raws, blobs) ==
            Header(ids[0], raws[0]) + "\n" + (blobs[0] + "\n" + LooseFrame(ids[1..], raws[1..], blobs[1..]))
  {
    hide Header;
  }

  lemma SourcesSplit(int_: IntReader, requested: seq<string>, sizes: seq<nat>, data: string, blobs: seq<string>)
    returns (blob: string, rest: string)
    requires requested != [] && |requested| == |sizes| && ReadSources(int_, requested, sizes, data) == Some(blobs)
    ensures HeadSource(int_, requested[0], sizes[0], data) == Some((blob, rest))
    ensures blobs != [] && blobs[0] == blob && ReadSources(int_, requested[1..], sizes[1..], rest) == Some(blobs[1..])
  {
    hide HeadSource;
    var head := HeadSource(int_, requested[0], sizes[0], data).value;
    blob, rest := head.0, head.1;
    assert blobs[1..] == ReadSources(int_, requested[1..], sizes[1..], rest).value;
  }

  lemma HeadSourceSound(int_: IntReader, id: string, size: nat, data: string, blob: string, rest: string)
    returns (raw: string)
    requires HeadSource(int_, id, size, data) == Some((blob, rest))
    ensures data == Header(id, raw) + "\n" + (blob + "\n" + rest)
    ensures SizeText(int_, raw, size) && |blob| == size
  {
    hide AnnouncedSize, Header;
    var n := FirstNewline(data);
    raw := AnnouncedHeader(int_, data[..n], id);
    HeaderHolds(id, raw);
    assert data == data[..n] + "\n" + (blob + "\n" + rest);
  }

  lemma HeaderHolds(id: string, raw: string)
    ensures '\n' !in Header(id, raw) <==> '\n' !in id && '\n' !in raw
  {
    var h := Header(id, raw);
    assert h == id + (" blob " + raw);
  }

  // ----- Git's own framing is read back

  lemma {:induction false} LineEndAt(line: string, rest: string)
    requires '\n' !in line && '\r' !in line
    ensures LineEnd(line + "\n" + rest) == |line|
  {
    var s := line + "\n" + rest;
    if line != "" {
      assert s[1..] == line[1..] + "\n" + rest;
      LineEndAt(line[1..], rest);
    }
  }

  lemma SplitLine(line: string, rest: string)
    requires '\n' !in line && '\r' !in line
    ensures SplitLines(line + "\n" + rest) == [line] + SplitLines(rest)
  {
    LineEndAt(line, rest);
    var s := line + "\n" + rest;
    assert s[..|line|] == line && s[|line| + 1..] == rest;
  }

  lemma HeaderHasNoBreak(id: string, n: nat)
    requires ObjectIdText(id)
    ensures '\n' !in Header(id, Dec(n)) && '\r' !in Header(id, Dec(n))
  {
    ObjectIdHasNoSeparator(id);
    DigitsHaveNoSpace(Dec(n));
  }

  lemma {:induction false} SizeLinesRead(int_: IntReader, ids: seq<string>, sizes: seq<nat>)
    requires ReadsDecimals(int_) && |ids| == |sizes| && ObjectIds(ids) && Bounded(sizes)
    ensures |SplitLines(SizesFrame(ids, sizes))| == |ids|
    ensures LineSizes(int_, ids, SplitLines(SizesFrame(ids, sizes))) == Some(sizes)
  {
    if ids != [] {
      hide *;
      var line, rest := Header(ids[0], Dec(sizes[0])), SizesFrame(ids[1..], sizes[1..]);
      SizesTail(ids, sizes);
      SizesFrameCons(ids, sizes);
      HeaderHasNoBreak(ids[0], sizes[0]);
      SplitLine(line, rest);
      AnnouncedDecimal(int_, ids[0], sizes[0]);
      SizeLinesRead(int_, ids[1..], sizes[1..]);
      LineSizesCons(int_, ids, line, SplitLines(rest), sizes[0]);
      AfterHead(sizes);
    } else {
      SplitNothing();
    }
  }

  lemma LineSizesCons(int_: IntReader, ids: seq<string>, line: string, rest: seq<string>, size: nat)
    requires |ids| == 1 + |rest| && AnnouncedSize(int_, line, ids[0]) == Some(size) && size <= MaxInputBytes
    ensures LineSizes(int_, ids, [line] + rest) == After([size], LineSizes(int_, ids[1..], rest))
  {
    hide AnnouncedSize;
    assert ([line] + rest)[1..] == rest;
  }

  lemma SplitNothing()
    ensures SplitLines("") == []
  {
  }

  lemma AnnouncedLoose(int_: IntReader, id: string, raw: string, n: int)
    requires ObjectIdText(id) && ' ' !in raw && int_(raw) == Some(n)
    ensures AnnouncedSize(int_, Header(id, raw), id) == Some(n)
  {
    ObjectIdHasNoSeparator(id);
    ThreeFields(Header(id, raw), id, raw);
  }

  lemma HeadSourceLoose(int_: IntReader, id: string, raw: string, blob: string, rest: string)
    requires ObjectIdText(id) && SizeText(int_, raw, |blob|)
    ensures HeadSource(int_, id, |blob|, Header(id, raw) + "\n" + (blob + "\n" + rest)) == Some((blob, rest))
  {
    ObjectIdHasNoSeparator(id);
    HeaderHolds(id, raw);
    AnnouncedLoose(int_, id, raw, |blob|);
    hide *;
    var header := Header(id, raw);
    FramePieces(header, blob, rest);
    HeadSourceAt(int_, id, |blob|, header + "\n" + (blob + "\n" + rest), |header|);
  }

  lemma HeadSourceAt(int_: IntReader, id: string, size: nat, data: string, n: nat)
    requires n == FirstNewline(data) && n + 1 + size < |data| && data[n + 1 + size] == '\n'
    requires AnnouncedSize(int_, data[..n], id) == Some(size)
    ensures HeadSource(int_, id, size, data) == Some((data[n + 1..n + 1 + size], data[n + 1 + size + 1..]))
  {
    hide AnnouncedSize, FirstNewline;
  }

  /** Each size text is one a header can carry for its blob. */
  predicate SizeTexts(int_: IntReader, raws: seq<string>, blobs: seq<string>)
    requires |raws| == |blobs|
  {
    forall i :: 0 <= i < |raws| ==> SizeText(int_, raws[i], |blobs[i]|)
  }

  /** Frames with any such size texts are read back, none left over. */
  lemma {:induction false} ReadSourcesLoose(int_: IntReader, ids: seq<string>, raws: seq<string>, blobs: seq<string>)
    requires |ids| == |raws| == |blobs| && ObjectIds(ids) && SizeTexts(int_, raws, blobs)
    ensures ReadSources(int_, ids, Sizes(blobs), LooseFrame(ids, raws, blobs)) == Some(blobs)
  {
    hide Header, ObjectIdText, HeadSource, ReadSources, LooseFrame, SizeText;
    if ids == [] {
      assert Sizes(blobs) == [] && raws == [] && blobs == [];
      LooseNothing();
      NoSources(int_, "");
    } else {
      var rest := LooseFrame(ids[1..], raws[1..], blobs[1..]);
      HeadSourceLoose(int_, ids[0], raws[0], blobs[0], rest);
      LooseCons(ids, raws, blobs);
      SizesCons(blobs);
      ReadSourcesLoose(int_, ids[1..], raws[1..], blobs[1..]);
      ReadSourcesCons(int_, ids, Sizes(blobs), LooseFrame(ids, raws, blobs), blobs[0], rest);
      AfterHead(blobs);
    }
  }

  lemma ReadSourcesCons(
    int_: IntReader, ids: seq<string>, sizes: seq<nat>, data: string, blob: string, rest: string)
    requires ids != [] && |ids| == |sizes| && HeadSource(int_, ids[0], sizes[0], data) == Some((blob, rest))
    ensures ReadSources(int_, ids, sizes, data) == After([blob], ReadSources(int_, ids[1..], sizes[1..], rest))
  {
    hide HeadSource;
  }

  /** A size line that announces n bytes for this ID. */
  ghost predicate LineAnnounces(int_: IntReader, line: string, id: string, n: int) {
    exists raw :: ' ' !in raw && line == Header(id, raw) && int_(raw) == Some(n)
  }

  lemma LineAnnouncesExactly(int_: IntReader, line: string, id: string, n: int)
    requires ObjectIdText(id)
    ensures AnnouncedSize(int_, line, id) == Some(n) <==> LineAnnounces(int_, line, id, n)
  {
    hide AnnouncedSize, Header, ObjectIdText;
    if AnnouncedSize(int_, line, id) == Some(n) {
      var raw := AnnouncedHeader(int_, line, id);
    }
    if LineAnnounces(int_, line, id, n) {
      var raw :| ' ' !in raw && line == Header(id, raw) && int_(raw) == Some(n);
      AnnouncedLoose(int_, id, raw, n);
    }
  }

  /** The size lines announce these sizes, in order, each within the limit. */
  ghost predicate LinesAnnounce(int_: IntReader, ids: seq<string>, lines: seq<string>, sizes: seq<nat>)
    requires |ids| == |lines|
  {
    |sizes| == |ids| && Bounded(sizes) && forall i :: 0 <= i < |ids| ==> LineAnnounces(int_, lines[i], ids[i], sizes[i])
  }

  lemma {:induction false} LineSizesExactly(int_: IntReader, ids: seq<string>, lines: seq<string>, sizes: seq<nat>)
    requires |ids| == |lines| && ObjectIds(ids)
    ensures LineSizes(int_, ids, lines) == Some(sizes) <==> LinesAnnounce(int_, ids, lines, sizes)
  {
    hide AnnouncedSize, LineAnnounces, ObjectIdText;
    if ids == [] {
      assert LineSizes(int_, ids, lines) == Some([]);
    } else if sizes == [] {
      if SizeLineOk(int_, lines[0], ids[0]) && LineSizes(int_, ids[1..], lines[1..]).Some? {
        assert LineSizes(int_, ids, lines).value != [];
      }
    } else {
      LineSizesExactly(int_, ids[1..], lines[1..], sizes[1..]);
      LineAnnouncesExactly(int_, lines[0], ids[0], sizes[0]);
      LineSizesHead(int_, ids, lines, sizes);
      LinesAnnounceHead(int_, ids, lines, sizes);
    }
  }

  lemma LineSizesHead(int_: IntReader, ids: seq<string>, lines: seq<string>, sizes: seq<nat>)
    requires |ids| == |lines| && ids != [] && sizes != []
    ensures LineSizes(int_, ids, lines) == Some(sizes) <==>
            && AnnouncedSize(int_, lines[0], ids[0]) == Some(sizes[0]) && sizes[0] <= MaxInputBytes
            && LineSizes(int_, ids[1..], lines[1..]) == Some(sizes[1..])
  {
    hide AnnouncedSize;
    assert sizes == [sizes[0]] + sizes[1..];
    var rest := LineSizes(int_, ids[1..], lines[1..]);
    if SizeLineOk(int_, lines[0], ids[0]) && rest.Some? {
      var n := AnnouncedSize(int_, lines[0], ids[0]).value as nat;
      assert LineSizes(int_, ids, lines) == Some([n] + rest.value);
      assert ([n] + rest.value)[0] == n && ([n] + rest.value)[1..] == rest.value;
    }
  }

  lemma LinesAnnounceHead(int_: IntReader, ids: seq<string>, lines: seq<string>, sizes: seq<nat>)
    requires |ids| == |lines| && ids != [] && sizes != []
    ensures LinesAnnounce(int_, ids, lines, sizes) <==>
            && LineAnnounces(int_, lines[0], ids[0], sizes[0]) && sizes[0] <= MaxInputBytes
            && LinesAnnounce(int_, ids[1..], lines[1..], sizes[1..])
  {
    hide LineAnnounces;
    if && LineAnnounces(int_, lines[0], ids[0], sizes[0]) && sizes[0] <= MaxInputBytes
       && LinesAnnounce(int_, ids[1..], lines[1..], sizes[1..]) {
      forall i | 0 <= i < |ids|
        ensures LineAnnounces(int_, lines[i], ids[i], sizes[i]) && sizes[i] <= MaxInputBytes
      {
        if i > 0 {
          assert ids[1..][i - 1] == ids[i] && lines[1..][i - 1] == lines[i] && sizes[1..][i - 1] == sizes[i];
        }
      }
    }
    if LinesAnnounce(int_, ids, lines, sizes) {
      forall i | 0 <= i < |ids| - 1
        ensures LineAnnounces(int_, lines[1..][i], ids[1..][i], sizes[1..][i]) && sizes[1..][i] <= MaxInputBytes
      {
        assert ids[1..][i] == ids[i + 1] && lines[1..][i] == lines[i + 1] && sizes[1..][i] == sizes[i + 1];
      }
    }
  }

  /** The output is the frames of these blobs, with some size texts and nothing after the last. */
  ghost predicate LooselyFramed(int_: IntReader, ids: seq<string>, output: string, blobs: seq<string>)
    requires |ids| == |blobs|
  {
    exists raws: seq<string> ::
      && |raws| == |ids| && SizeTexts(int_, raws, blobs) && output == LooseFrame(ids, raws, blobs)
  }

  lemma ReadSourcesExactly(int_: IntReader, ids: seq<string>, sizes: seq<nat>, output: string, blobs: seq<string>)
    requires |ids| == |sizes| && ObjectIds(ids)
    ensures ReadSources(int_, ids, sizes, output) == Some(blobs) <==>
            |blobs| == |ids| && Sizes(blobs) == sizes && LooselyFramed(int_, ids, output, blobs)
  {
    hide ReadSources, LooseFrame, ObjectIdText, SizeText, Sizes;
    if ReadSources(int_, ids, sizes, output) == Some(blobs) {
      var raws := SourcesSound(int_, ids, sizes, output, blobs);
      assert SizeTexts(int_, raws, blobs);
    }
    if |blobs| == |ids| && Sizes(blobs) == sizes && LooselyFramed(int_, ids, output, blobs) {
      var raws: seq<string> :|
        && |raws| == |ids| && SizeTexts(int_, raws, blobs) && output == LooseFrame(ids, raws, blobs);
      ReadSourcesLoose(int_, ids, raws, blobs);
    }
  }

  /**
   For well-formed object IDs the reader yields these blobs if and only if there is one size line per
   blob announcing its length, the sizes are within both limits, and the output is their frames with any
   size texts that read as the lengths.
   */
  lemma SourcesExactly(
    int_: IntReader, requested: seq<string>, sizeOutput: string, output: string, blobs: seq<string>)
    requires ObjectIds(requested)
    ensures Sources(int_, requested, sizeOutput, output) == Some(blobs) <==>
            && |blobs| == |requested| == |SplitLines(sizeOutput)|
            && LinesAnnounce(int_, requested, SplitLines(sizeOutput), Sizes(blobs))
            && Total(Sizes(blobs)) <= MaxSourceTotalBytes
            && LooselyFramed(int_, requested, output, blobs)
  {
    hide LineSizes, ReadSources, LinesAnnounce, LooselyFramed, SplitLines, ObjectIdText, Total;
    var lines := SplitLines(sizeOutput);
    if |lines| == |requested| {
      var sizes := LineSizes(int_, requested, lines);
      if sizes.Some? {
        LineSizesExactly(int_, requested, lines, sizes.value);
        AnnouncedCount(int_, requested, lines, sizes.value);
        ReadSourcesExactly(int_, requested, sizes.value, output, blobs);
      }
      if |blobs| == |requested| {
        LineSizesExactly(int_, requested, lines, Sizes(blobs));
      }
    }
  }

  lemma AnnouncedCount(int_: IntReader, ids: seq<string>, lines: seq<string>, sizes: seq<nat>)
    requires |ids| == |lines| && LinesAnnounce(int_, ids, lines, sizes)
    ensures |sizes| == |ids|
  {
  }

  /** The canonical decimals of the blob lengths. */
  function Lengths(blobs: seq<string>): (r: seq<string>)
    ensures |r| == |blobs| && forall i :: 0 <= i < |blobs| ==> r[i] == Dec(|blobs[i]|)
  {
    seq(|blobs|, i requires 0 <= i < |blobs| => Dec(|blobs[i]|))
  }

  /** Git's framing is the loose one with canonical decimals. */
  lemma {:induction false} ContentIsLoose(ids: seq<string>, blobs: seq<string>)
    requires |ids| == |blobs|
    ensures ContentFrame(ids, blobs) == LooseFrame(ids, Lengths(blobs), blobs)
  {
    hide Header, Dec;
    if ids != [] {
      ContentIsLoose(ids[1..], blobs[1..]);
      assert Lengths(blobs)[1..] == Lengths(blobs[1..]);
    }
  }

  lemma LengthsRead(int_: IntReader, blobs: seq<string>)
    requires ReadsDecimals(int_)
    ensures SizeTexts(int_, Lengths(blobs), blobs)
  {
    forall i | 0 <= i < |blobs|
      ensures SizeText(int_, Lengths(blobs)[i], |blobs[i]|)
    {
      DigitsHaveNoSpace(Dec(|blobs[i]|));
    }
  }

  /** From Git's framing of bounded blobs the reader recovers every blob. */
  lemma SourcesComplete(int_: IntReader, requested: seq<string>, blobs: seq<string>)
    requires ReadsDecimals(int_) && |requested| == |blobs| && ObjectIds(requested)
    requires Bounded(Sizes(blobs)) && Total(Sizes(blobs)) <= MaxSourceTotalBytes
    ensures Sources(int_, requested, SizesFrame(requested, Sizes(blobs)), ContentFrame(requested, blobs)) == Some(blobs)
  {
    hide Header, Dec, ReadsDecimals, ObjectIdText, LineSizes, SplitLines, ReadSources, SizesFrame, ContentFrame,
         LooseFrame, SizeTexts, Lengths;
    SizeLinesRead(int_, requested, Sizes(blobs));
    ContentIsLoose(requested, blobs);
    LengthsRead(int_, blobs);
    ReadSourcesLoose(int_, requested, Lengths(blobs), blobs);
  }

  /** If equal IDs carry equal blobs, the dictionary maps each requested ID to its blob and nothing else. */
  lemma {:induction false} BindRecovers(ids: seq<string>, blobs: seq<string>)
    requires |ids| == |blobs|
    requires forall i, j :: 0 <= i < j < |ids| && ids[i] == ids[j] ==> blobs[i] == blobs[j]
    ensures Bind(ids, blobs).Keys == set id | id in ids
    ensures forall i :: 0 <= i < |ids| ==> ids[i] in Bind(ids, blobs) && Bind(ids, blobs)[ids[i]] == blobs[i]
  {
    if ids != [] {
      var n := |ids| - 1;
      var init, bound := Bind(ids[..n], blobs[..n]), Bind(ids, blobs);
      BindRecovers(ids[..n], blobs[..n]);
      assert bound == init[ids[n] := blobs[n]];
      assert ids == ids[..n] + [ids[n]];
      hide Bind;
      forall i | 0 <= i < |ids|
        ensures ids[i] in bound && bound[ids[i]] == blobs[i]
      {
        if i < n {
          assert ids[..n][i] == ids[i] && blobs[..n][i] == blobs[i];
        }
      }
    }
  }

  /** One turn of the content loop, at an offset. */
  predicate SourceAt(int_: IntReader, id: string, size: nat, output: string, offset: nat, line: nat)
    requires offset <= line <= |output|
  {
    var end := line + 1 + size;
    && line < |output| && AnnouncedSize(int_, output[offset..line], id) == Some(size)
    && end < |output| && output[end] == '\n'
  }

  lemma SourceInside(int_: IntReader, id: string, size: nat, output: string, offset: nat, line: nat)
    requires offset <= line <= |output|
    ensures SourceAt(int_, id, size, output, offset, line) ==> line + 1 + size < |output|
  {
  }

  lemma SourceAtOffset(int_: IntReader, id: string, size: nat, output: string, offset: nat, line: nat)
    requires offset <= |output| && line == offset + FirstNewline(output[offset..])
    ensures HeadSource(int_, id, size, output[offset..]) ==
            if SourceAt(int_, id, size, output, offset, line)
            then Some((output[line + 1..line + 1 + size], output[line + 1 + size + 1..]))
            else None
  {
    hide AnnouncedSize, FirstNewline;
    var data := output[offset..];
    var n := line - offset;
    Window(output, offset, n);
    var end := n + 1 + size;
    if end < |data| {
      Window(output, offset, end);
      assert data[n + 1..end] == output[line + 1..line + 1 + size];
    }
  }

  /** One turn of the content loop: a frame is read, or the reader stops. */
  lemma SourcesAdvance(
    int_: IntReader, ids: seq<string>, sizes: seq<nat>, output: string, i: nat, data: string, blobs: seq<string>,
    blob: string, rest: string)
    requires |ids| == |sizes| && i < |ids| && HeadSource(int_, ids[i], sizes[i], data) == Some((blob, rest))
    requires ReadSources(int_, ids, sizes, output) == After(blobs, ReadSources(int_, ids[i..], sizes[i..], data))
    ensures ReadSources(int_, ids, sizes, output) ==
            After(blobs + [blob], ReadSources(int_, ids[i + 1..], sizes[i + 1..], rest))
  {
    hide *;
    SourcesStep(int_, ids, sizes, i, data, blobs, blob, rest);
  }

  lemma SourcesHalt(
    int_: IntReader, ids: seq<string>, sizes: seq<nat>, output: string, i: nat, data: string, blobs: seq<string>)
    requires |ids| == |sizes| && i < |ids| && HeadSource(int_, ids[i], sizes[i], data).None?
    requires ReadSources(int_, ids, sizes, output) == After(blobs, ReadSources(int_, ids[i..], sizes[i..], data))
    ensures ReadSources(int_, ids, sizes, output) == None
  {
    hide *;
    SourcesStop(int_, ids, sizes, i, data, blobs);
  }

  lemma SourcesStep(
    int_: IntReader, ids: seq<string>, sizes: seq<nat>, i: nat, data: string, blobs: seq<string>, blob: string,
    rest: string)
    requires |ids| == |sizes| && i < |ids| && HeadSource(int_, ids[i], sizes[i], data) == Some((blob, rest))
    ensures After(blobs, ReadSources(int_, ids[i..], sizes[i..], data)) ==
            After(blobs + [blob], ReadSources(int_, ids[i + 1..], sizes[i + 1..], rest))
  {
    hide HeadSource;
    assert ids[i..][0] == ids[i] && ids[i..][1..] == ids[i + 1..];
    assert sizes[i..][0] == sizes[i] && sizes[i..][1..] == sizes[i + 1..];
    AfterSnoc(blobs, blob, ReadSources(int_, ids[i + 1..], sizes[i + 1..], rest));
  }

  lemma SourcesStop(int_: IntReader, ids: seq<string>, sizes: seq<nat>, i: nat, data: string, blobs: seq<string>)
    requires |ids| == |sizes| && i < |ids| && HeadSource(int_, ids[i], sizes[i], data).None?
    ensures After(blobs, ReadSources(int_, ids[i..], sizes[i..], data)) == None
  {
    hide HeadSource;
    assert ids[i..][0] == ids[i] && sizes[i..][0] == sizes[i];
  }

  lemma NoSources(int_: IntReader, data: string)
    ensures ReadSources(int_, [], [], data) == if data == "" then Some([]) else None
  {
  }

  lemma BindSnoc(ids: seq<string>, i: nat, blobs: seq<string>, blob: string)
    requires i < |ids| && |blobs| == i
    ensures Bind(ids[..i + 1], blobs + [blob]) == Bind(ids[..i], blobs)[ids[i] := blob]
  {
    assert ids[..i + 1][..i] == ids[..i];
    assert (blobs + [blob])[..i] == blobs;
  }

  /** The content loop: what the frames hold, in a dictionary. */
  method ReadContents(int_: IntReader, requested: seq<string>, sizes: seq<nat>, output: string)
    returns (r: Option<map<string, string>>)
    requires |requested| == |sizes|
    ensures r.Some? <==> ReadSources(int_, requested, sizes, output).Some?
    ensures r.Some? ==>
              var blobs := ReadSources(int_, requested, sizes, output).value;
              |blobs| == |requested| && r.value == Bind(requested, blobs)
  {
    hide *;
    var offset: nat := 0;
    var contents: map<string, string> := map[];
    ghost var blobs: seq<string> := [];
    assert requested[0..] == requested && sizes[0..] == sizes && output[0..] == output && requested[..0] == [];
    BindNothing();
    AfterNothing(ReadSources(int_, requested, sizes, output));
    for i := 0 to |requested|
      invariant offset <= |output| && |blobs| == i
      invariant ReadSources(int_, requested, sizes, output) ==
                After(blobs, ReadSources(int_, requested[i..], sizes[i..], output[offset..]))
      invariant contents == Bind(requested[..i], blobs)
    {
      var line := offset + FirstNewline(output[offset..]);
      SourceAtOffset(int_, requested[i], sizes[i], output, offset, line);
      if !SourceAt(int_, requested[i], sizes[i], output, offset, line) {
        SourcesHalt(int_, requested, sizes, output, i, output[offset..], blobs);
        return None;
      }
      SourceInside(int_, requested[i], sizes[i], output, offset, line);
      var start, end := line + 1, line + 1 + sizes[i];
      SourcesAdvance(int_, requested, sizes, output, i, output[offset..], blobs, output[start..end], output[end + 1..]);
      BindSnoc(requested, i, blobs, output[start..end]);
      contents := contents[requested[i] := output[start..end]];
      blobs, offset := blobs + [output[start..end]], end + 1;
    }
    assert requested[|requested|..] == [] && sizes[|requested|..] == [] && requested[..|requested|] == requested;
    NoSources(int_, output[offset..]);
    AfterAll(blobs, ReadSources(int_, [], [], output[offset..]));
    if offset != |output| {
      return None;
    }
    r := Some(contents);
  }

  lemma BindNothing()
    ensures Bind([], []) == map[]
  {
  }

  lemma LineStep(int_: IntReader, requested: seq<string>, lines: seq<string>, i: nat, sizes: seq<nat>)
    requires |requested| == |lines| && i < |lines|
    ensures After(sizes, LineSizes(int_, requested[i..], lines[i..])) ==
            if !SizeLineOk(int_, lines[i], requested[i]) then None
            else After(sizes + [AnnouncedSize(int_, lines[i], requested[i]).value as nat],
                       LineSizes(int_, requested[i + 1..], lines[i + 1..]))
  {
    hide AnnouncedSize;
    assert requested[i..][0] == requested[i] && requested[i..][1..] == requested[i + 1..];
    assert lines[i..][0] == lines[i] && lines[i..][1..] == lines[i + 1..];
    if SizeLineOk(int_, lines[i], requested[i]) {
      AfterSnoc(sizes, AnnouncedSize(int_, lines[i], requested[i]).value as nat,
        LineSizes(int_, requested[i + 1..], lines[i + 1..]));
    }
  }

  lemma LineOk(int_: IntReader, line: string, id: string)
    ensures SizeLineOk(int_, line, id) ==>
            AnnouncedSize(int_, line, id).Some? && AnnouncedSize(int_, line, id).value >= 0
  {
  }

  lemma NoLines(int_: IntReader)
    ensures LineSizes(int_, [], []) == Some([])
  {
  }

  /** The size loop: one announced size per requested blob, in order. */
  method ReadLineSizes(int_: IntReader, requested: seq<string>, lines: seq<string>) returns (r: Option<seq<nat>>)
    requires |requested| == |lines|
    ensures r == LineSizes(int_, requested, lines)
    ensures r.Some? ==> |r.value| == |requested|
  {
    hide *;
    var sizes: seq<nat> := [];
    assert requested[0..] == requested && lines[0..] == lines;
    AfterNothing(LineSizes(int_, requested, lines));
    for i := 0 to |lines|
      invariant |sizes| == i
      invariant LineSizes(int_, requested, lines) == After(sizes, LineSizes(int_, requested[i..], lines[i..]))
    {
      LineStep(int_, requested, lines, i, sizes);
      LineOk(int_, lines[i], requested[i]);
      if !SizeLineOk(int_, lines[i], requested[i]) {
        return None;
      }
      sizes := sizes + [AnnouncedSize(int_, lines[i], requested[i]).value as nat];
    }
    assert requested[|lines|..] == [] && lines[|lines|..] == [];
    NoLines(int_);
    AfterAll(sizes, Some([]));
    r := Some(sizes);
  }

  /** The reader: the two outputs give a dictionary exactly when they are sizes and frames in order. */
  method GitSourceContents(int_: IntReader, requested: seq<string>, sizeOutput: string, output: string)
    returns (r: Option<map<string, string>>)
    ensures r.Some? <==> Sources(int_, requested, sizeOutput, output).Some?
    ensures r.Some? ==>
              var blobs := Sources(int_, requested, sizeOutput, output).value;
              |blobs| == |requested| && r.value == Bind(requested, blobs)
  {
    hide LineSizes, SplitLines, ReadSources, Bind;
    var lines := SplitLines(sizeOutput);
    if |lines| != |requested| {
      return None;
    }
    var sizes := ReadLineSizes(int_, requested, lines);
    if sizes.None? || Total(sizes.value) > MaxSourceTotalBytes {
      return None;
    }
    r := ReadContents(int_, requested, sizes.value, output);
  }
}
