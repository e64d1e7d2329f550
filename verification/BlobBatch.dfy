/** Parsers of `git cat-file --batch` output, as inverses of its framing. */
module BlobBatch {
  import opened Prelude
  import opened Decimal
  import opened LineText

  const MaxInputBytes := 16 * 1024 * 1024
  const MaxRecoveryInputBytes := 64 * 1024 * 1024
  const MaxGitMetadataBytes := 4 * 1024 * 1024

  // ----- fields of one header line

  /** bytes.split(b" "): one field more than there are spaces. */
  function Split(s: string): (r: seq<string>)
    ensures r != []
  {
    if s == "" then [""]
    else
      var rest := Split(s[1..]);
      if s[0] == ' ' then [""] + rest else [[s[0]] + rest[0]] + rest[1..]
  }

  lemma {:induction false} SplitWord(word: string)
    requires ' ' !in word
    ensures Split(word) == [word]
  {
    if word != "" {
      SplitWord(word[1..]);
      assert [word[0]] + word[1..] == word;
    }
  }

  lemma {:induction false} SplitCons(word: string, rest: string)
    requires ' ' !in word
    ensures Split(word + " " + rest) == [word] + Split(rest)
  {
    var s := word + " " + rest;
    if word == "" {
      assert s[1..] == rest;
    } else {
      assert s[1..] == word[1..] + " " + rest;
      SplitCons(word[1..], rest);
      assert [word[0]] + word[1..] == word;
    }
  }

  function JoinFields(fs: seq<string>): string
    requires fs != []
  {
    if |fs| == 1 then fs[0] else fs[0] + " " + JoinFields(fs[1..])
  }

  lemma {:induction false} JoinOfSplit(s: string)
    ensures JoinFields(Split(s)) == s
  {
    if s != "" {
      JoinOfSplit(s[1..]);
      var rest := Split(s[1..]);
      if s[0] == ' ' {
        assert ([""] + rest)[1..] == rest;
      } else {
        var fs := [[s[0]] + rest[0]] + rest[1..];
        assert fs[1..] == rest[1..];
      }
      assert [s[0]] + s[1..] == s;
    }
  }

  function Header(id: string, size: string): string {
    id + " blob " + size
  }

  lemma ThreeFields(header: string, id: string, size: string)
    requires ' ' !in id && ' ' !in size
    ensures Split(header) == [id, "blob", size] <==> header == Header(id, size)
  {
    if Split(header) == [id, "blob", size] {
      JoinOfSplit(header);
      assert [id, "blob", size][1..] == ["blob", size] && ["blob", size][1..] == [size];
      assert JoinFields([size]) == size;
      assert JoinFields(["blob", size]) == "blob" + " " + size;
      assert JoinFields([id, "blob", size]) == id + " " + ("blob" + " " + size);
      assert header == Header(id, size);
    }
    if header == Header(id, size) {
      assert header == id + " " + ("blob" + " " + size);
      SplitCons(id, "blob" + " " + size);
      SplitCons("blob", size);
      SplitWord(size);
    }
  }

  lemma DigitsHaveNoSpace(s: string)
    requires AllDigits(s)
    ensures ' ' !in s && '\n' !in s && '\r' !in s
  {
  }

  // ----- the handoff parser

  /** The size a header announces, if the header is exactly well formed. */
  function BatchBlobSize(header: string, expected: string): Option<nat> {
    var fields := Split(header);
    if |fields| != 3 || fields[0] != expected || fields[1] != "blob" then None
    else
      var raw := fields[2];
      if raw == "" || !AllDigits(raw) || |raw| > |Dec(MaxInputBytes)| then None
      else
        var size := Value(raw);
        if raw != Dec(size) || size > MaxInputBytes then None else Some(size)
  }

  /** A header is accepted exactly when it is id, "blob" and the canonical decimal of a bounded size. */
  lemma HeaderExactly(header: string, id: string, n: nat)
    requires ' ' !in id
    ensures BatchBlobSize(header, id) == Some(n) <==> header == Header(id, Dec(n)) && n <= MaxInputBytes
  {
    hide Split, Header, Dec, Value;
    if BatchBlobSize(header, id) == Some(n) {
      var raw := Split(header)[2];
      assert Split(header) == [id, "blob", raw];
      DigitsHaveNoSpace(raw);
      ThreeFields(header, id, raw);
    }
    if header == Header(id, Dec(n)) && n <= MaxInputBytes {
      DigitsHaveNoSpace(Dec(n));
      ThreeFields(header, id, Dec(n));
      ValueOfDec(n);
      DecLengthMonotone(n, MaxInputBytes);
    }
  }

  predicate ObjectIdText(id: string) {
    && (|id| == 40 || |id| == 64)
    && forall i :: 0 <= i < |id| ==> '0' <= id[i] <= '9' || 'a' <= id[i] <= 'f'
  }

  lemma ObjectIdHasNoSeparator(id: string)
    requires ObjectIdText(id)
    ensures ' ' !in id && '\n' !in id && '\r' !in id
  {
  }

  /** The abstract hash of a framed object, by hexadecimal length of the result. */
  type ObjectHash = (string, nat) -> string

  function BlobObjectId(hash: ObjectHash, blob: string, hexLength: nat): string {
    hash("blob " + Dec(|blob|) + "\0" + blob, hexLength)
  }

  function RequestLength(ids: seq<string>): nat {
    if ids == [] then 0 else |ids[0]| + 1 + RequestLength(ids[1..])
  }

  predicate ValidRequest(ids: seq<string>) {
    && ids != [] && Distinct(ids)
    && ObjectIds(ids)
    && RequestLength(ids) <= MaxGitMetadataBytes
  }

  // ----- the framing, as a function of the blobs

  function Total(sizes: seq<nat>): nat {
    if sizes == [] then 0 else sizes[0] + Total(sizes[1..])
  }

  function Sizes(blobs: seq<string>): (r: seq<nat>)
    ensures |r| == |blobs| && forall i :: 0 <= i < |blobs| ==> r[i] == |blobs[i]|
  {
    seq(|blobs|, i requires 0 <= i < |blobs| => |blobs[i]|)
  }

  function SizesFrame(ids: seq<string>, sizes: seq<nat>): string
    requires |ids| == |sizes|
  {
    if ids == [] then "" else Header(ids[0], Dec(sizes[0])) + "\n" + SizesFrame(ids[1..], sizes[1..])
  }

  function ContentFrame(ids: seq<string>, blobs: seq<string>): string
    requires |ids| == |blobs|
  {
    if ids == [] then ""
    else Header(ids[0], Dec(|blobs[0]|)) + "\n" + (blobs[0] + "\n" + ContentFrame(ids[1..], blobs[1..]))
  }

  /** The bytes the second phase is allowed to produce. */
  function ExpectedLength(ids: seq<string>, sizes: seq<nat>): nat
    requires |ids| == |sizes|
  {
    if ids == [] then 0
    else |ids[0]| + |" blob "| + |Dec(sizes[0])| + 1 + sizes[0] + 1 + ExpectedLength(ids[1..], sizes[1..])
  }

  /** Both phases are the in-order framing of blobs that hash to the requested IDs, within all limits. */
  predicate Framing(
    hash: ObjectHash, ids: seq<string>, metadata: string, output: string, blobs: seq<string>)
  {
    && |blobs| == |ids|
    && metadata == SizesFrame(ids, Sizes(blobs)) && |metadata| <= MaxGitMetadataBytes
    && Bounded(Sizes(blobs))
    && Total(Sizes(blobs)) <= MaxRecoveryInputBytes
    && output == ContentFrame(ids, blobs)
    && Hashes(hash, ids, blobs)
  }

  // ----- what the two loops compute

  /** Prepend what has been read to what the rest yields. */
  function After<T>(done: seq<T>, rest: Option<seq<T>>): Option<seq<T>> {
    if rest.None? then None else Some(done + rest.value)
  }

  /** One metadata line from the front of the data. */
  function HeadSize(id: string, data: string): Option<(nat, string)> {
    var n := FirstNewline(data);
    if n == |data| then None
    else
      var size := BatchBlobSize(data[..n], id);
      if size.None? then None else Some((size.value, data[n + 1..]))
  }

  /** One content frame of a known size from the front of the data. */
  function HeadBlob(hash: ObjectHash, id: string, size: nat, data: string): Option<(string, string)> {
    var n := FirstNewline(data);
    var end := n + 1 + size;
    if n == |data| || BatchBlobSize(data[..n], id) != Some(size) || end >= |data| || data[end] != '\n' then None
    else if BlobObjectId(hash, data[n + 1..end], |id|) != id then None
    else Some((data[n + 1..end], data[end + 1..]))
  }

  function ParseSizes(ids: seq<string>, data: string): Option<seq<nat>> {
    if ids == [] then if data == "" then Some([]) else None
    else
      var head := HeadSize(ids[0], data);
      if head.None? then None else After([head.value.0], ParseSizes(ids[1..], head.value.1))
  }

  function ParseContents(hash: ObjectHash, ids: seq<string>, sizes: seq<nat>, data: string): Option<seq<string>>
    requires |ids| == |sizes|
  {
    if ids == [] then if data == "" then Some([]) else None
    else
      var head := HeadBlob(hash, ids[0], sizes[0], data);
      if head.None? then None else After([head.value.0], ParseContents(hash, ids[1..], sizes[1..], head.value.1))
  }

  function Batch(hash: ObjectHash, ids: seq<string>, metadata: string, output: string): Option<seq<string>> {
    if !ValidRequest(ids) || |metadata| > MaxGitMetadataBytes then None
    else
      var sizes := ParseSizes(ids, metadata);
      if sizes.None? || |sizes.value| != |ids| || Total(sizes.value) > MaxRecoveryInputBytes
         || |output| > ExpectedLength(ids, sizes.value) then None
      else ParseContents(hash, ids, sizes.value, output)
  }

  lemma HeadSizeExactly(id: string, data: string, size: nat, rest: string)
    requires ObjectIdText(id)
    ensures HeadSize(id, data) == Some((size, rest)) <==>
            data == Header(id, Dec(size)) + "\n" + rest && size <= MaxInputBytes
  {
    hide BatchBlobSize, Header, Dec, ObjectIdText;
    HeaderIsOneLine(id, size);
    if HeadSize(id, data) == Some((size, rest)) {
      var n := FirstNewline(data);
      HeaderExactly(data[..n], id, size);
      assert data == data[..n] + "\n" + rest;
    }
    if data == Header(id, Dec(size)) + "\n" + rest && size <= MaxInputBytes {
      var header := Header(id, Dec(size));
      FirstNewlineAt(header, rest);
      HeaderExactly(header, id, size);
      assert data[..|header|] == header && data[|header| + 1..] == rest;
    }
  }

  predicate Bounded(sizes: seq<nat>) {
    forall i :: 0 <= i < |sizes| ==> sizes[i] <= MaxInputBytes
  }

  predicate ObjectIds(ids: seq<string>) {
    forall i :: 0 <= i < |ids| ==> ObjectIdText(ids[i])
  }

  lemma {:induction false} ParseSizesSound(ids: seq<string>, data: string, sizes: seq<nat>)
    requires ObjectIds(ids) && ParseSizes(ids, data) == Some(sizes)
    ensures |sizes| == |ids| && data == SizesFrame(ids, sizes) && Bounded(sizes)
  {
    if ids != [] {
      hide HeadSize, Header, Dec, ObjectIdText;
      var (size, rest) := HeadSize(ids[0], data).value;
      HeadSizeExactly(ids[0], data, size, rest);
      assert sizes == [size] + sizes[1..];
      ParseSizesSound(ids[1..], rest, sizes[1..]);
    }
  }

  lemma ParseSizesCons(ids: seq<string>, data: string, size: nat, rest: string)
    requires ids != [] && HeadSize(ids[0], data) == Some((size, rest))
    ensures ParseSizes(ids, data) == After([size], ParseSizes(ids[1..], rest))
  {
    hide HeadSize;
  }

  lemma SizesFrameCons(ids: seq<string>, sizes: seq<nat>)
    requires ids != [] && |sizes| == |ids|
    ensures SizesFrame(ids, sizes) == Header(ids[0], Dec(sizes[0])) + "\n" + SizesFrame(ids[1..], sizes[1..])
  {
    hide Header, Dec;
  }

  lemma AfterHead<T>(xs: seq<T>)
    requires xs != []
    ensures After([xs[0]], Some(xs[1..])) == Some(xs)
  {
    assert xs == [xs[0]] + xs[1..];
  }

  lemma SizesTail(ids: seq<string>, sizes: seq<nat>)
    requires ids != [] && |sizes| == |ids| && ObjectIds(ids) && Bounded(sizes)
    ensures ObjectIdText(ids[0]) && sizes[0] <= MaxInputBytes && ObjectIds(ids[1..]) && Bounded(sizes[1..])
  {
    hide ObjectIdText;
  }

  lemma {:induction false} ParseSizesComplete(ids: seq<string>, sizes: seq<nat>)
    requires ObjectIds(ids) && |sizes| == |ids| && Bounded(sizes)
    ensures ParseSizes(ids, SizesFrame(ids, sizes)) == Some(sizes)
  {
    if ids != [] {
      hide *;
      var rest := SizesFrame(ids[1..], sizes[1..]);
      SizesTail(ids, sizes);
      SizesFrameCons(ids, sizes);
      HeadSizeExactly(ids[0], SizesFrame(ids, sizes), sizes[0], rest);
      ParseSizesCons(ids, SizesFrame(ids, sizes), sizes[0], rest);
      ParseSizesComplete(ids[1..], sizes[1..]);
      AfterHead(sizes);
    }
  }

  lemma FramePieces(header: string, blob: string, rest: string)
    requires '\n' !in header
    ensures var data := header + "\n" + (blob + "\n" + rest);
            && FirstNewline(data) == |header| && data[..|header|] == header
            && |header| + 1 + |blob| < |data| && data[|header| + 1 + |blob|] == '\n'
            && data[|header| + 1..|header| + 1 + |blob|] == blob && data[|header| + 1 + |blob| + 1..] == rest
  {
    var body := blob + "\n" + rest;
    var data := header + "\n" + body;
    FirstNewlineAt(header, body);
    hide *;
    assert |data| == |header| + 1 + |body|;
    assert forall i :: 0 <= i < |body| ==> data[|header| + 1 + i] == body[i];
    assert data[|header| + 1 + |blob| + 1..] == rest;
  }

  predicate Hashes(hash: ObjectHash, ids: seq<string>, blobs: seq<string>)
    requires |ids| == |blobs|
  {
    forall i :: 0 <= i < |ids| ==> BlobObjectId(hash, blobs[i], |ids[i]|) == ids[i]
  }

  lemma HeadBlobSound(hash: ObjectHash, id: string, size: nat, data: string)
    requires ObjectIdText(id) && HeadBlob(hash, id, size, data).Some?
    ensures var (blob, rest) := HeadBlob(hash, id, size, data).value;
            && |blob| == size <= MaxInputBytes && BlobObjectId(hash, blob, |id|) == id
            && data == Header(id, Dec(|blob|)) + "\n" + (blob + "\n" + rest)
  {
    hide BatchBlobSize, Header, Dec, BlobObjectId;
    var n := FirstNewline(data);
    ObjectIdHasNoSeparator(id);
    HeaderExactly(data[..n], id, size);
    var (blob, rest) := HeadBlob(hash, id, size, data).value;
    assert data == data[..n] + "\n" + (blob + "\n" + rest);
  }

  lemma HeadBlobComplete(hash: ObjectHash, id: string, blob: string, rest: string)
    requires ObjectIdText(id) && |blob| <= MaxInputBytes && BlobObjectId(hash, blob, |id|) == id
    ensures HeadBlob(hash, id, |blob|, Header(id, Dec(|blob|)) + "\n" + (blob + "\n" + rest)) == Some((blob, rest))
  {
    hide *;
    var header := Header(id, Dec(|blob|));
    HeaderIsOneLine(id, |blob|);
    HeaderExactly(header, id, |blob|);
    FramePieces(header, blob, rest);
    HeadBlobAt(hash, id, |blob|, header + "\n" + (blob + "\n" + rest), |header|);
  }

  lemma HeaderIsOneLine(id: string, size: nat)
    requires ObjectIdText(id)
    ensures '\n' !in Header(id, Dec(size)) && ' ' !in id
  {
    ObjectIdHasNoSeparator(id);
    DigitsHaveNoSpace(Dec(size));
  }

  lemma HeadBlobAt(hash: ObjectHash, id: string, size: nat, data: string, n: nat)
    requires n == FirstNewline(data) && n + 1 + size < |data| && data[n + 1 + size] == '\n'
    requires BatchBlobSize(data[..n], id) == Some(size)
    requires BlobObjectId(hash, data[n + 1..n + 1 + size], |id|) == id
    ensures HeadBlob(hash, id, size, data) == Some((data[n + 1..n + 1 + size], data[n + 1 + size + 1..]))
  {
    hide BatchBlobSize, BlobObjectId;
  }

  lemma ContentsSplit(hash: ObjectHash, ids: seq<string>, sizes: seq<nat>, data: string, blobs: seq<string>)
    returns (blob: string, rest: string)
    requires ids != [] && |ids| == |sizes| && ParseContents(hash, ids, sizes, data) == Some(blobs)
    ensures HeadBlob(hash, ids[0], sizes[0], data) == Some((blob, rest))
    ensures blobs != [] && blobs[0] == blob && ParseContents(hash, ids[1..], sizes[1..], rest) == Some(blobs[1..])
  {
    hide HeadBlob;
    var head := HeadBlob(hash, ids[0], sizes[0], data).value;
    blob, rest := head.0, head.1;
    assert blobs[1..] == ParseContents(hash, ids[1..], sizes[1..], rest).value;
  }

  lemma SizesCons(blobs: seq<string>)
    requires blobs != []
    ensures Sizes(blobs) == [|blobs[0]|] + Sizes(blobs[1..])
  {
  }

  lemma {:induction false} ParseContentsSound(
    hash: ObjectHash, ids: seq<string>, sizes: seq<nat>, data: string, blobs: seq<string>)
    requires |ids| == |sizes| && ObjectIds(ids)
    requires ParseContents(hash, ids, sizes, data) == Some(blobs)
    ensures |blobs| == |ids| && data == ContentFrame(ids, blobs) && Sizes(blobs) == sizes
    ensures Hashes(hash, ids, blobs)
  {
    if ids != [] {
      hide HeadBlob, Header, Dec, ObjectIdText, BlobObjectId, Sizes, ParseContents;
      var blob, rest := ContentsSplit(hash, ids, sizes, data, blobs);
      HeadBlobSound(hash, ids[0], sizes[0], data);
      ParseContentsSound(hash, ids[1..], sizes[1..], rest, blobs[1..]);
      SizesCons(blobs);
      assert sizes == [sizes[0]] + sizes[1..];
    } else {
      assert sizes == [] && blobs == [];
    }
  }

  lemma BlobsTail(hash: ObjectHash, ids: seq<string>, blobs: seq<string>)
    requires ids != [] && |ids| == |blobs| && ObjectIds(ids) && Hashes(hash, ids, blobs) && Bounded(Sizes(blobs))
    ensures ObjectIdText(ids[0]) && |blobs[0]| <= MaxInputBytes && BlobObjectId(hash, blobs[0], |ids[0]|) == ids[0]
    ensures ObjectIds(ids[1..]) && Hashes(hash, ids[1..], blobs[1..])
    ensures Sizes(blobs)[0] == |blobs[0]| && Sizes(blobs)[1..] == Sizes(blobs[1..]) && Bounded(Sizes(blobs[1..]))
  {
    hide ObjectIdText, BlobObjectId;
    assert Sizes(blobs)[0] == |blobs[0]| && Sizes(blobs)[1..] == Sizes(blobs[1..]);
  }

  lemma {:induction false} ParseContentsComplete(hash: ObjectHash, ids: seq<string>, blobs: seq<string>)
    requires |ids| == |blobs| && ObjectIds(ids) && Hashes(hash, ids, blobs) && Bounded(Sizes(blobs))
    ensures ParseContents(hash, ids, Sizes(blobs), ContentFrame(ids, blobs)) == Some(blobs)
  {
    if ids != [] {
      BlobsTail(hash, ids, blobs);
      hide HeadBlob, Header, Dec, ObjectIdText, ObjectIds, Hashes, Bounded, Sizes, BlobObjectId;
      HeadBlobComplete(hash, ids[0], blobs[0], ContentFrame(ids[1..], blobs[1..]));
      ParseContentsComplete(hash, ids[1..], blobs[1..]);
      assert blobs == [blobs[0]] + blobs[1..];
    }
  }

  /** The framing has exactly the length the verifier computed beforehand. */
  lemma {:induction false} FrameLength(ids: seq<string>, blobs: seq<string>)
    requires |ids| == |blobs|
    ensures |ContentFrame(ids, blobs)| == ExpectedLength(ids, Sizes(blobs))
  {
    if ids != [] {
      FrameLength(ids[1..], blobs[1..]);
      assert Sizes(blobs)[1..] == Sizes(blobs[1..]);
    }
  }

  /** The two-phase parser accepts exactly the framing, and recovers exactly the framed blobs. */
  lemma BatchExactly(hash: ObjectHash, ids: seq<string>, metadata: string, output: string, blobs: seq<string>)
    requires ValidRequest(ids)
    ensures Batch(hash, ids, metadata, output) == Some(blobs) <==> Framing(hash, ids, metadata, output, blobs)
  {
    hide ParseSizes, ParseContents, BlobObjectId, SizesFrame, ContentFrame, Total, ExpectedLength;
    if Batch(hash, ids, metadata, output) == Some(blobs) {
      var sizes := ParseSizes(ids, metadata).value;
      ParseSizesSound(ids, metadata, sizes);
      ParseContentsSound(hash, ids, sizes, output, blobs);
    }
    if Framing(hash, ids, metadata, output, blobs) {
      ParseSizesComplete(ids, Sizes(blobs));
      ParseContentsComplete(hash, ids, blobs);
      FrameLength(ids, blobs);
    }
  }

  // ----- the loops

  lemma {:induction false} TotalAppend(a: seq<nat>, b: seq<nat>)
    ensures Total(a + b) == Total(a) + Total(b)
  {
    if a == [] {
      assert a + b == b;
    } else {
      assert (a + b)[1..] == a[1..] + b;
      TotalAppend(a[1..], b);
    }
  }

  lemma ParsedCount(ids: seq<string>, data: string)
    ensures ParseSizes(ids, data).Some? ==> |ParseSizes(ids, data).value| == |ids|
  {
  }

  lemma AfterSnoc<T>(done: seq<T>, x: T, rest: Option<seq<T>>)
    ensures After(done, After([x], rest)) == After(done + [x], rest)
  {
    if rest.Some? {
      Assoc(done, [x], rest.value);
    }
  }

  lemma SizesStep(ids: seq<string>, i: nat, data: string, sizes: seq<nat>)
    requires i < |ids|
    ensures var head := HeadSize(ids[i], data);
            After(sizes, ParseSizes(ids[i..], data)) ==
            if head.None? then None else After(sizes + [head.value.0], ParseSizes(ids[i + 1..], head.value.1))
  {
    hide HeadSize;
    assert ids[i..][0] == ids[i] && ids[i..][1..] == ids[i + 1..];
    var head := HeadSize(ids[i], data);
    if head.Some? {
      AfterSnoc(sizes, head.value.0, ParseSizes(ids[i + 1..], head.value.1));
    }
  }

  /** One turn of the metadata loop, at a cursor. */
  lemma SizesTurn(ids: seq<string>, metadata: string, i: nat, cursor: nat, sizes: seq<nat>)
    requires i < |ids| && cursor <= |metadata|
    requires ParseSizes(ids, metadata) == After(sizes, ParseSizes(ids[i..], metadata[cursor..]))
    ensures var n := FirstNewline(metadata[cursor..]);
            if cursor + n == |metadata| || BatchBlobSize(metadata[cursor..cursor + n], ids[i]).None?
            then ParseSizes(ids, metadata).None?
            else ParseSizes(ids, metadata) ==
                 After(sizes + [BatchBlobSize(metadata[cursor..cursor + n], ids[i]).value],
                       ParseSizes(ids[i + 1..], metadata[cursor + n + 1..]))
  {
    hide *;
    var data := metadata[cursor..];
    var n := FirstNewline(data);
    SizesStep(ids, i, data, sizes);
    HeadSizeIs(ids[i], data);
    Window(metadata, cursor, n);
  }

  lemma HeadSizeIs(id: string, data: string)
    ensures var n := FirstNewline(data);
            HeadSize(id, data) ==
            if n == |data| || BatchBlobSize(data[..n], id).None? then None
            else Some((BatchBlobSize(data[..n], id).value, data[n + 1..]))
  {
    hide BatchBlobSize, FirstNewline;
  }

  lemma Window<T>(s: seq<T>, cursor: nat, n: nat)
    requires cursor + n <= |s|
    ensures s[cursor..][..n] == s[cursor..cursor + n]
    ensures cursor + n < |s| ==> s[cursor..][n + 1..] == s[cursor + n + 1..] && s[cursor..][n] == s[cursor + n]
    ensures forall k: nat :: k <= n ==> s[cursor..][k..n] == s[cursor + k..cursor + n]
  {
  }

  method ReadSizes(ids: seq<string>, metadata: string) returns (r: Option<seq<nat>>)
    ensures r.Some? <==>
            ParseSizes(ids, metadata).Some? && Total(ParseSizes(ids, metadata).value) <= MaxRecoveryInputBytes
    ensures r.Some? ==> r == ParseSizes(ids, metadata) && |r.value| == |ids|
  {
    hide *;
    var cursor: nat, total: nat := 0, 0;
    var sizes: seq<nat> := [];
    assert ids[0..] == ids && metadata[0..] == metadata;
    TotalEmpty();
    AfterNothing(ParseSizes(ids, metadata));
    for i := 0 to |ids|
      invariant cursor <= |metadata| && |sizes| == i
      invariant ParseSizes(ids, metadata) == After(sizes, ParseSizes(ids[i..], metadata[cursor..]))
      invariant total == Total(sizes) && total <= MaxRecoveryInputBytes
    {
      SizesTurn(ids, metadata, i, cursor, sizes);
      var end := cursor + FirstNewline(metadata[cursor..]);
      if end == |metadata| {
        return None;
      }
      var size := BatchBlobSize(metadata[cursor..end], ids[i]);
      if size.None? {
        return None;
      }
      TotalAppend(sizes, [size.value]);
      sizes, total, cursor := sizes + [size.value], total + size.value, end + 1;
      if total > MaxRecoveryInputBytes {
        TooLarge(ids, metadata, i, cursor, sizes);
        return None;
      }
    }
    assert ids[|ids|..] == [];
    ParseNothing(metadata[cursor..]);
    AfterAll(sizes, ParseSizes([], metadata[cursor..]));
    if cursor != |metadata| {
      return None;
    }
    r := Some(sizes);
  }

  lemma AfterNothing<T>(rest: Option<seq<T>>)
    ensures After([], rest) == rest
  {
    if rest.Some? {
      assert [] + rest.value == rest.value;
    }
  }

  lemma AfterAll<T>(done: seq<T>, rest: Option<seq<T>>)
    ensures rest == Some([]) ==> After(done, rest) == Some(done)
    ensures rest == None ==> After(done, rest) == None
  {
    assert done + [] == done;
  }

  lemma TotalEmpty()
    ensures Total([]) == 0 <= MaxRecoveryInputBytes
    ensures forall n: nat :: Total([n]) == n
  {
  }

  lemma ParseNothing(data: string)
    ensures ParseSizes([], data) == if data == "" then Some([]) else None
    ensures forall hash :: ParseContents(hash, [], [], data) == if data == "" then Some([]) else None
  {
  }

  lemma TooLarge(ids: seq<string>, metadata: string, i: nat, cursor: nat, sizes: seq<nat>)
    requires i < |ids| && cursor <= |metadata| && Total(sizes) > MaxRecoveryInputBytes
    requires ParseSizes(ids, metadata) == After(sizes, ParseSizes(ids[i + 1..], metadata[cursor..]))
    ensures ParseSizes(ids, metadata).Some? ==> Total(ParseSizes(ids, metadata).value) > MaxRecoveryInputBytes
  {
    hide ParseSizes;
    var rest := ParseSizes(ids[i + 1..], metadata[cursor..]);
    if rest.Some? {
      TotalAppend(sizes, rest.value);
    }
  }

  lemma ContentsStep(hash: ObjectHash, ids: seq<string>, sizes: seq<nat>, i: nat, data: string, blobs: seq<string>)
    requires |ids| == |sizes| && i < |ids|
    ensures var head := HeadBlob(hash, ids[i], sizes[i], data);
            After(blobs, ParseContents(hash, ids[i..], sizes[i..], data)) ==
            if head.None? then None
            else After(blobs + [head.value.0], ParseContents(hash, ids[i + 1..], sizes[i + 1..], head.value.1))
  {
    hide HeadBlob;
    assert ids[i..][0] == ids[i] && ids[i..][1..] == ids[i + 1..];
    assert sizes[i..][0] == sizes[i] && sizes[i..][1..] == sizes[i + 1..];
    var head := HeadBlob(hash, ids[i], sizes[i], data);
    if head.Some? {
      AfterSnoc(blobs, head.value.0, ParseContents(hash, ids[i + 1..], sizes[i + 1..], head.value.1));
    }
  }

  /** The frame at a cursor is the frame at the front of what follows the cursor. */
  predicate FrameAt(hash: ObjectHash, id: string, size: nat, output: string, cursor: nat, line: nat)
    requires cursor <= line <= |output|
  {
    var end := line + 1 + size;
    && line < |output| && BatchBlobSize(output[cursor..line], id) == Some(size)
    && end < |output| && output[end] == '\n'
    && BlobObjectId(hash, output[line + 1..end], |id|) == id
  }

  lemma FrameAtCursor(hash: ObjectHash, id: string, size: nat, output: string, cursor: nat, line: nat)
    requires cursor <= |output| && line == cursor + FirstNewline(output[cursor..])
    ensures HeadBlob(hash, id, size, output[cursor..]) ==
            if FrameAt(hash, id, size, output, cursor, line)
            then Some((output[line + 1..line + 1 + size], output[line + 1 + size + 1..]))
            else None
  {
    hide BatchBlobSize, BlobObjectId, FirstNewline, HeadBlob;
    var data := output[cursor..];
    var n := line - cursor;
    HeadBlobIs(hash, id, size, data);
    Window(output, cursor, n);
    var end := n + 1 + size;
    if end < |data| {
      Window(output, cursor, end);
      assert data[end] == output[line + 1 + size];
      assert data[n + 1..end] == output[line + 1..line + 1 + size];
    }
  }

  /** One turn of the content loop, at a cursor. */
  lemma ContentsTurn(
    hash: ObjectHash, ids: seq<string>, sizes: seq<nat>, output: string, i: nat, cursor: nat, line: nat,
    blobs: seq<string>)
    requires |ids| == |sizes| && i < |ids|
    requires cursor <= |output| && line == cursor + FirstNewline(output[cursor..])
    requires ParseContents(hash, ids, sizes, output) ==
             After(blobs, ParseContents(hash, ids[i..], sizes[i..], output[cursor..]))
    ensures ParseContents(hash, ids, sizes, output) ==
            if FrameAt(hash, ids[i], sizes[i], output, cursor, line)
            then After(blobs + [output[line + 1..line + 1 + sizes[i]]],
                       ParseContents(hash, ids[i + 1..], sizes[i + 1..], output[line + 1 + sizes[i] + 1..]))
            else None
  {
    hide *;
    FrameInside(hash, ids[i], sizes[i], output, cursor, line);
    ContentsStep(hash, ids, sizes, i, output[cursor..], blobs);
    FrameAtCursor(hash, ids[i], sizes[i], output, cursor, line);
  }

  lemma FrameInside(hash: ObjectHash, id: string, size: nat, output: string, cursor: nat, line: nat)
    requires cursor <= line <= |output|
    ensures FrameAt(hash, id, size, output, cursor, line) ==> line + 1 + size < |output|
  {
  }

  lemma HeadBlobIs(hash: ObjectHash, id: string, size: nat, data: string)
    ensures var n := FirstNewline(data);
            var end := n + 1 + size;
            HeadBlob(hash, id, size, data) ==
            if n == |data| || BatchBlobSize(data[..n], id) != Some(size) || end >= |data| || data[end] != '\n' ||
               BlobObjectId(hash, data[n + 1..end], |id|) != id then None
            else Some((data[n + 1..end], data[end + 1..]))
  {
    hide BatchBlobSize, FirstNewline, BlobObjectId;
  }

  /** What the bindings of a batch are: size and digest of each requested blob. */
  predicate Binds(sha: string -> string, ids: seq<string>, blobs: seq<string>, bindings: map<string, (nat, string)>)
    requires |ids| == |blobs|
  {
    && bindings.Keys == (set id | id in ids)
    && forall i :: 0 <= i < |ids| ==> ids[i] in bindings && bindings[ids[i]] == (|blobs[i]|, sha(blobs[i]))
  }

  lemma BindsNothing(sha: string -> string)
    ensures Binds(sha, [], [], map[])
  {
  }

  lemma BindsSnoc(
    sha: string -> string, ids: seq<string>, i: nat, blobs: seq<string>, blob: string,
    bindings: map<string, (nat, string)>)
    requires i < |ids| && |blobs| == i && Distinct(ids) && Binds(sha, ids[..i], blobs, bindings)
    ensures Binds(sha, ids[..i + 1], blobs + [blob], bindings[ids[i] := (|blob|, sha(blob))])
  {
    assert ids[..i + 1] == ids[..i] + [ids[i]];
    assert forall k :: 0 <= k < i ==> ids[..i][k] == ids[k] != ids[i];
  }

  method ReadContents(hash: ObjectHash, sha: string -> string, ids: seq<string>, sizes: seq<nat>, output: string)
    returns (r: Option<map<string, (nat, string)>>, ghost blobs: seq<string>)
    requires |ids| == |sizes| && Distinct(ids)
    ensures r.Some? <==> ParseContents(hash, ids, sizes, output).Some?
    ensures r.Some? ==>
              && ParseContents(hash, ids, sizes, output) == Some(blobs)
              && |blobs| == |ids| && Binds(sha, ids, blobs, r.value)
  {
    hide *;
    blobs := [];
    var cursor: nat := 0;
    var bindings: map<string, (nat, string)> := map[];
    assert ids[0..] == ids && sizes[0..] == sizes && output[0..] == output;
    assert ids[..0] == [];
    BindsNothing(sha);
    AfterNothing(ParseContents(hash, ids, sizes, output));
    for i := 0 to |ids|
      invariant cursor <= |output| && |blobs| == i
      invariant ParseContents(hash, ids, sizes, output) ==
                After(blobs, ParseContents(hash, ids[i..], sizes[i..], output[cursor..]))
      invariant Binds(sha, ids[..i], blobs, bindings)
    {
      var line := cursor + FirstNewline(output[cursor..]);
      ContentsTurn(hash, ids, sizes, output, i, cursor, line, blobs);
      if !FrameAt(hash, ids[i], sizes[i], output, cursor, line) {
        return None, blobs;
      }
      FrameInside(hash, ids[i], sizes[i], output, cursor, line);
      var end := line + 1 + sizes[i];
      var blob := output[line + 1..end];
      BindsSnoc(sha, ids, i, blobs, blob, bindings);
      bindings := bindings[ids[i] := (|blob|, sha(blob))];
      blobs, cursor := blobs + [blob], end + 1;
    }
    assert ids[|ids|..] == [] && sizes[|ids|..] == [];
    ParseNothing(output[cursor..]);
    AfterAll(blobs, ParseContents(hash, [], [], output[cursor..]));
    assert ids[..|ids|] == ids;
    if cursor != |output| {
      return None, blobs;
    }
    r := Some(bindings);
  }

  /** The batch verifier: it succeeds exactly on the framing, and binds every ID to its blob. */
  method BlobBindings(hash: ObjectHash, sha: string -> string, ids: seq<string>, metadata: string, output: string)
    returns (r: Option<map<string, (nat, string)>>)
    ensures r.Some? <==> ValidRequest(ids) && exists blobs :: Framing(hash, ids, metadata, output, blobs)
    ensures forall blobs | r.Some? && Framing(hash, ids, metadata, output, blobs) :: Binds(sha, ids, blobs, r.value)
  {
    if !ValidRequest(ids) {
      return None;
    }
    hide Framing, BatchBlobSize, ParseSizes, ParseContents, Binds, ValidRequest;
    forall blobs
      ensures Batch(hash, ids, metadata, output) == Some(blobs) <==> Framing(hash, ids, metadata, output, blobs)
    {
      BatchExactly(hash, ids, metadata, output, blobs);
    }
    if |metadata| > MaxGitMetadataBytes {
      return None;
    }
    var sizes := ReadSizes(ids, metadata);
    ParsedCount(ids, metadata);
    if sizes.None? || |output| > ExpectedLength(ids, sizes.value) {
      return None;
    }
    RequestDistinct(ids);
    ghost var blobs;
    r, blobs := ReadContents(hash, sha, ids, sizes.value, output);
    assert r.Some? ==> Framing(hash, ids, metadata, output, blobs);
  }

  lemma RequestDistinct(ids: seq<string>)
    requires ValidRequest(ids)
    ensures Distinct(ids)
  {
  }
}
