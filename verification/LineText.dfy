/** Newline-terminated text and its lines. */
module LineText {
  import opened Prelude

  function FirstNewline(data: string): (n: nat)
    ensures n <= |data|
    ensures forall i :: 0 <= i < n ==> data[i] != '\n'
    ensures n < |data| ==> data[n] == '\n'
  {
    if data == "" || data[0] == '\n' then 0 else 1 + FirstNewline(data[1..])
  }

  /** Lines of newline-terminated text, terminators dropped. */
  function Lines(data: string): seq<string>
    decreases |data|
  {
    if data == "" then []
    else
      var n := FirstNewline(data);
      [data[..n]] + if n == |data| then [] else Lines(data[n + 1..])
  }

  function Frame(lines: seq<string>): string {
    if lines == [] then "" else lines[0] + "\n" + Frame(lines[1..])
  }

  /** Exact LF framing: no CR, and a nonempty ledger ends with LF. */
  predicate Framed(data: string) {
    '\r' !in data && Terminated(data)
  }

  predicate Terminated(data: string) {
    data != "" ==> data[|data| - 1] == '\n'
  }

  lemma {:induction false} FirstNewlineAt(line: string, rest: string)
    requires '\n' !in line
    ensures FirstNewline(line + "\n" + rest) == |line|
  {
    var data := line + "\n" + rest;
    if line != "" {
      assert data[1..] == line[1..] + "\n" + rest;
      FirstNewlineAt(line[1..], rest);
    }
  }

  lemma LinesCons(line: string, rest: string)
    requires '\n' !in line
    ensures Lines(line + "\n" + rest) == [line] + Lines(rest)
  {
    var data := line + "\n" + rest;
    FirstNewlineAt(line, rest);
    assert data[..|line|] == line && data[|line| + 1..] == rest;
    assert rest == "" ==> Lines(rest) == [];
  }

  lemma FirstLine(data: string) returns (line: string, rest: string)
    requires data != "" && Terminated(data)
    ensures '\n' !in line && data == line + "\n" + rest && Terminated(rest)
  {
    var n := FirstNewline(data);
    assert n < |data|;
    line, rest := data[..n], data[n + 1..];
  }

  lemma {:induction false} FrameOfLines(data: string)
    requires Terminated(data)
    ensures Frame(Lines(data)) == data
    decreases |data|
  {
    if data != "" {
      var line, rest := FirstLine(data);
      FrameOfLines(rest);
      LinesCons(line, rest);
    }
  }

  lemma {:induction false} LinesAppend(a: string, b: string)
    requires Terminated(a)
    ensures Lines(a + b) == Lines(a) + Lines(b)
    decreases |a|
  {
    if a == "" {
      assert a + b == b;
    } else {
      hide *;
      var line, rest := FirstLine(a);
      LinesAppend(rest, b);
      LinesCons(line, rest);
      LinesCons(line, rest + b);
      Assoc(line + "\n", rest, b);
      Assoc([line], Lines(rest), Lines(b));
    }
  }
}
