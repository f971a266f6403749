/** The tail of a job's log: the last lines of the file's final bytes, kept in
    a ring that is shifted once it is full. */
module LogTail {
  import opened Text

  const DEFAULT_LINES := 200
  const DEFAULT_BYTES := 0x4_0000      // 256 << 10
  const MAX_BYTES := 0x20_0000         // 2 << 20

  function DropCR(line: string): string {
    if line != "" && line[|line| - 1] == '\r' then line[..|line| - 1] else line
  }

  /** bufio.ScanLines over a whole input. */
  function Lines(s: string): seq<string>
    decreases |s|
  {
    if s == "" then []
    else
      match Index(s, "\n")
      case None => [DropCR(s)]
      case Some(i) => [DropCR(s[..i])] + Lines(s[i + 1..])
  }

  function Last<T>(s: seq<T>, n: nat): seq<T> {
    if |s| <= n then s else s[|s| - n..]
  }

  function EffectiveLines(lines: int): nat {
    if lines <= 0 then DEFAULT_LINES else lines
  }

  function EffectiveBytes(maxBytes: int): nat {
    if maxBytes <= 0 || maxBytes > MAX_BYTES then DEFAULT_BYTES else maxBytes
  }

  /** Tail.  Of the last maxBytes bytes, 256 KiB if that is out of range, it
      scans the lines and gives the last of them, 200 if lines is not positive. */
  method Tail(file: string, lines: int, maxBytes: int) returns (text: string, truncated: bool, ghost scan: seq<string>)
    ensures text == Join(Last(Lines(Last(file, EffectiveBytes(maxBytes))), EffectiveLines(lines)), "\n")
    ensures truncated <==> |file| > EffectiveBytes(maxBytes)
    ensures var bytes := if maxBytes <= 0 || maxBytes > 2 * 1024 * 1024 then 256 * 1024 else maxBytes;
            (truncated <==> |file| > bytes) && scan == Lines(file[if |file| > bytes then |file| - bytes else 0..])
    ensures var n := if lines <= 0 then 200 else lines;
            text == Join(scan[if |scan| > n then |scan| - n else 0..], "\n")
  {
    var n, bytes := lines, maxBytes;
    if n <= 0 {
      n := DEFAULT_LINES;
    }
    if bytes <= 0 || bytes > MAX_BYTES {
      bytes := DEFAULT_BYTES;
    }
    var start := |file| - bytes;
    truncated := start > 0;
    if start < 0 {
      start := 0;
    }
    WindowExactly(file, maxBytes);
    var read := Lines(file[start..]);
    scan := read;
    LastExactly(scan, EffectiveLines(lines));
    var ring := ReadRing(read, n);
    text := Join(ring, "\n");
  }

  lemma WindowExactly(file: string, maxBytes: int)
    ensures var bytes := if maxBytes <= 0 || maxBytes > 2 * 1024 * 1024 then 256 * 1024 else maxBytes;
            && EffectiveBytes(maxBytes) == bytes
            && Last(file, bytes) == file[if |file| > bytes then |file| - bytes else 0..]
  {
    LastExactly(file, EffectiveBytes(maxBytes));
  }

  lemma LastExactly<T>(s: seq<T>, n: nat)
    ensures Last(s, n) == s[if |s| > n then |s| - n else 0..]
  {
    assert s[0..] == s;
  }

  /** The scanning loop. */
  method ReadRing(scan: seq<string>, n: nat) returns (lines: seq<string>)
    requires n > 0
    ensures lines == Last(scan, n) == scan[if |scan| > n then |scan| - n else 0..]
  {
    var ring := new string[n](_ => "");
    var len := 0;
    for i := 0 to |scan|
      invariant 0 <= len <= n && ring[..len] == Last(scan[..i], n)
    {
      assert scan[..i + 1] == scan[..i] + [scan[i]];
      LastOneMore(scan[..i], scan[i], n);
      len := Push(ring, len, scan[i]);
    }
    assert scan[..|scan|] == scan;
    lines := ring[..len];
  }

  /** One line read: it goes into the next free place, or into the last after
      a shift. */
  method Push(ring: array<string>, used: nat, line: string) returns (len: nat)
    requires used <= ring.Length && ring.Length > 0
    modifies ring
    ensures len <= ring.Length
    ensures ring[..len] == old(if used == ring.Length then ring[1..] else ring[..used]) + [line]
  {
    len := used;
    if len == ring.Length {
      Shift(ring);
      ring[len - 1] := line;
      assert ring[..len - 1] == old(ring[1..]);
    } else {
      ring[len] := line;
      len := len + 1;
    }
    assert ring[..len] == ring[..len - 1] + [ring[len - 1]];
  }

  lemma LastOneMore(s: seq<string>, x: string, n: nat)
    requires n > 0
    ensures Last(s + [x], n) == (if |Last(s, n)| == n then Last(s, n)[1..] else Last(s, n)) + [x]
  {
  }

  /** copy(ring, ring[1:]) */
  method Shift(ring: array<string>)
    requires ring.Length > 0
    modifies ring
    ensures ring[..ring.Length - 1] == old(ring[1..])
  {
    for k := 0 to ring.Length - 1
      invariant forall j | 0 <= j < k :: ring[j] == old(ring[j + 1])
      invariant forall j | k <= j < ring.Length :: ring[j] == old(ring[j])
    {
      ring[k] := ring[k + 1];
    }
  }

  // ------------------------------------------------ what lines are read

  function Printed(lines: seq<string>): string {
    if lines == [] then "" else lines[0] + "\n" + Printed(lines[1..])
  }

  predicate IsLine(line: string) {
    '\n' !in line && DropCR(line) == line
  }

  /** How lines are read: up to the next newline, less one carriage return
      before it, and then what follows; and a last line without a newline as
      the others. */
  lemma LinesExactly(line: string, rest: string)
    requires '\n' !in line
    ensures Lines(line + "\n" + rest) ==
              [if line != "" && line[|line| - 1] == '\r' then line[..|line| - 1] else line] + Lines(rest)
    ensures line != "" ==> Lines(line) == [if line[|line| - 1] == '\r' then line[..|line| - 1] else line]
    ensures Lines("") == []
  {
    FirstChar(line, '\n', rest);
    var s := line + "\n" + rest;
    assert s[..|line|] == line && s[|line| + 1..] == rest;
    IndexChar(line, '\n');
  }

  /** Lines undoes printing one line after another, with or without a line
      still being written at the end. */
  lemma {:induction false} LinesOfPrinted(lines: seq<string>, partial: string)
    requires (forall line | line in lines :: IsLine(line)) && IsLine(partial)
    ensures Lines(Printed(lines) + partial) == lines + (if partial == "" then [] else [partial])
  {
    if lines == [] {
      assert Printed(lines) + partial == partial;
      IndexChar(partial, '\n');
    } else {
      var rest := Printed(lines[1..]) + partial;
      var s := lines[0] + "\n" + rest;
      assert Printed(lines) + partial == s;
      assert lines[0] in lines && forall x | x in lines[1..] :: x in lines;
      FirstChar(lines[0], '\n', rest);
      assert s[..|lines[0]|] == lines[0] && s[|lines[0]| + 1..] == rest;
      LinesOfPrinted(lines[1..], partial);
    }
  }
}
