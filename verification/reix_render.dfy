/** What the viewer prints for a slice: the hex+ASCII table, one line per 16
    bytes, or the unbroken hex stream of inline mode. The pure functions say
    what the text is; the methods ReiX and ReiXInline drive the reader and are
    proved to produce that text. */
module Render {
  import opened Bytes
  import opened Slice

  /** Bytes per table line (`LINE_LENGTH`). */
  const LINE_LENGTH: nat := 16
  /** Buffer size of inline mode (`CHUNK_SIZE` in `ReiX_inline`). */
  const INLINE_CHUNK: nat := 1024

  // ---------------------------------------------------------------------
  // Hexadecimal digits
  // ---------------------------------------------------------------------

  predicate IsUpperHexDigit(c: char) {
    '0' <= c <= '9' || 'A' <= c <= 'F'
  }

  predicate AllUpperHex(s: string) {
    forall i :: 0 <= i < |s| ==> IsUpperHexDigit(s[i])
  }

  function HexDigitValue(c: char): (d: nat)
    requires IsUpperHexDigit(c)
    ensures d < 16
  {
    if c <= '9' then c as int - '0' as int else c as int - 'A' as int + 10
  }

  /** The uppercase digit for a value below 16. */
  function HexDigit(d: nat): (c: char)
    requires d < 16
    ensures IsUpperHexDigit(c) && HexDigitValue(c) == d
  {
    if d < 10 then ('0' as int + d) as char else ('A' as int + d - 10) as char
  }

  /** Value of a string of hex digits, most significant first. */
  function HexValue(s: string): nat
    requires AllUpperHex(s)
  {
    if s == [] then 0 else HexValue(s[..|s| - 1]) * 16 + HexDigitValue(s[|s| - 1])
  }

  /** A byte as exactly two uppercase hex digits (Rust format `02X`). */
  function Hex2(b: u8): (r: string)
    ensures |r| == 2 && AllUpperHex(r)
    ensures HexValue(r) == b as int
  {
    var r := [HexDigit(b as int / 16), HexDigit(b as int % 16)];
    assert r[..1] == [r[0]] && r[..1][..0] == [];
    assert HexValue(r[..1]) == b as int / 16;
    r
  }

  /** A number in uppercase hex without leading zeros (Rust format `X`). */
  function HexUpper(n: nat): (r: string)
    ensures r != [] && AllUpperHex(r)
    ensures HexValue(r) == n
    ensures |r| > 1 ==> r[0] != '0'
  {
    var d := HexDigit(n % 16);
    if n < 16 then [d]
    else
      var prefix := HexUpper(n / 16);
      assert (prefix + [d])[..|prefix|] == prefix;
      prefix + [d]
  }

  /** A larger number never has fewer hex digits. */
  lemma {:induction false} HexUpperLengthMonotone(m: nat, n: nat)
    requires m <= n
    ensures |HexUpper(m)| <= |HexUpper(n)|
  {
    if m >= 16 {
      HexUpperLengthMonotone(m / 16, n / 16);
    }
  }

  // ---------------------------------------------------------------------
  // The line label
  // ---------------------------------------------------------------------

  function Zeros(k: nat): (r: string)
    ensures |r| == k && AllUpperHex(r)
  {
    seq(k, _ => '0')
  }

  /** Leading zeros do not change a hex value. */
  lemma {:induction false} HexValueLeadingZeros(k: nat, s: string)
    requires AllUpperHex(s)
    ensures AllUpperHex(Zeros(k) + s)
    ensures HexValue(Zeros(k) + s) == HexValue(s)
  {
    var t := Zeros(k) + s;
    assert AllUpperHex(t) by {
      forall i | 0 <= i < |t| ensures IsUpperHexDigit(t[i]) {
        if i >= k { assert t[i] == s[i - k]; }
      }
    }
    if s == [] {
      assert t == Zeros(k);
      ZerosValue(k);
    } else {
      var init := s[..|s| - 1];
      assert t[..|t| - 1] == Zeros(k) + init;
      HexValueLeadingZeros(k, init);
    }
  }

  lemma {:induction false} ZerosValue(k: nat)
    ensures HexValue(Zeros(k)) == 0
  {
    if k > 0 {
      assert Zeros(k)[..k - 1] == Zeros(k - 1);
      ZerosValue(k - 1);
    }
  }

  /** Zero-padding on the left to at least `width` characters (Rust format `0w$X`). */
  function ZeroPad(s: string, width: nat): string {
    if |s| < width then Zeros(width - |s|) + s else s
  }

  /** Digit count of the line labels: that of the last line index len/16.
      (The formats `x` and `X` give the same number of digits.) */
  function LabelWidth(len: nat): (w: nat)
    ensures w >= 1
    ensures len < LINE_LENGTH * LINE_LENGTH ==> w == 1
    ensures len >= LINE_LENGTH * LINE_LENGTH ==> w >= 2
  {
    |HexUpper(len / LINE_LENGTH)|
  }

  /** "0x", the line index in uppercase hex zero-padded to `width`, two spaces. */
  function LineLabel(line: nat, width: nat): (r: string)
    ensures |r| >= width + 4 && |r| >= |HexUpper(line)| + 4
    ensures r[..2] == "0x" && r[|r| - 2..] == "  "
  {
    "0x" + ZeroPad(HexUpper(line), width) + "  "
  }

  /** A label whose index fits the width is exactly width + 4 characters and
      its digits read back as the line index. */
  lemma LineLabelShape(line: nat, width: nat)
    requires |HexUpper(line)| <= width
    ensures |LineLabel(line, width)| == width + 4
    ensures LineLabel(line, width)[..2] == "0x"
    ensures LineLabel(line, width)[width + 2..] == "  "
    ensures AllUpperHex(LineLabel(line, width)[2..width + 2])
    ensures HexValue(LineLabel(line, width)[2..width + 2]) == line
  {
    var digits := HexUpper(line);
    var padded := ZeroPad(digits, width);
    var text := LineLabel(line, width);
    assert text == "0x" + padded + "  ";
    if |digits| < width {
      HexValueLeadingZeros(width - |digits|, digits);
    }
    assert text[2..width + 2] == padded;
  }

  /** Every line index of a slice's table fits the label width, so all labels
      of one table have the same length. */
  lemma TableLabelsAligned(len: nat, line: nat)
    requires line * LINE_LENGTH < len
    ensures |LineLabel(line, LabelWidth(len))| == LabelWidth(len) + 4
  {
    assert line <= len / LINE_LENGTH;
    HexUpperLengthMonotone(line, len / LINE_LENGTH);
    LineLabelShape(line, LabelWidth(len));
  }

  // ---------------------------------------------------------------------
  // The hex and ASCII columns
  // ---------------------------------------------------------------------

  /** Every byte as two hex digits followed by a space. */
  function HexCells(bytes: seq<u8>): (r: string)
    ensures |r| == 3 * |bytes|
  {
    if bytes == [] then "" else Hex2(bytes[0]) + " " + HexCells(bytes[1..])
  }

  /** Cell i of the hex column holds byte i. */
  lemma {:induction false} HexCellsAt(bytes: seq<u8>, i: nat)
    requires i < |bytes|
    ensures HexCells(bytes)[3 * i..3 * i + 3] == Hex2(bytes[i]) + " "
  {
    var cells := HexCells(bytes);
    var head := Hex2(bytes[0]) + " ";
    assert cells == head + HexCells(bytes[1..]);
    if i > 0 {
      HexCellsAt(bytes[1..], i - 1);
      assert cells[3 * i..3 * i + 3] == HexCells(bytes[1..])[3 * (i - 1)..3 * (i - 1) + 3];
    }
  }

  function Spaces(k: nat): (r: string)
    ensures |r| == k
  {
    seq(k, _ => ' ')
  }

  /** The hex column of one line: the cells, then three spaces for every
      missing byte of a short line. */
  function HexColumn(bytes: seq<u8>): (r: string)
    ensures |r| >= 3 * |bytes|
    ensures |bytes| <= LINE_LENGTH ==> |r| == 3 * LINE_LENGTH
    ensures forall i :: 0 <= i < |bytes| ==> r[3 * i..3 * i + 3] == Hex2(bytes[i]) + " "
    ensures forall j :: 3 * |bytes| <= j < |r| ==> r[j] == ' '
  {
    var cells := HexCells(bytes);
    var r := cells + (if |bytes| < LINE_LENGTH then Spaces(3 * (LINE_LENGTH - |bytes|)) else "");
    forall i | 0 <= i < |bytes| ensures r[3 * i..3 * i + 3] == Hex2(bytes[i]) + " " {
      HexCellsAt(bytes, i);
      assert r[3 * i..3 * i + 3] == cells[3 * i..3 * i + 3];
    }
    r
  }

  /** Rust's `u8::is_ascii`. */
  predicate IsAscii(b: u8) {
    b < 0x80
  }

  /** Rust's `u8::is_ascii_control`: 0x00..0x1F and DEL. */
  predicate IsAsciiControl(b: u8) {
    b < 0x20 || b == 0x7F
  }

  /** A byte in the ASCII column: itself exactly when it is printable ASCII
      (0x20..0x7E), otherwise a dot. */
  function AsciiChar(b: u8): (c: char)
    ensures 0x20 <= b <= 0x7E ==> c == (b as int) as char
    ensures !(0x20 <= b <= 0x7E) ==> c == '.'
  {
    if IsAscii(b) && !IsAsciiControl(b) then (b as int) as char else '.'
  }

  /** The ASCII rendering of a line's bytes, one character per byte. */
  function AsciiText(bytes: seq<u8>): (r: string)
    ensures |r| == |bytes|
  {
    if bytes == [] then "" else AsciiText(bytes[..|bytes| - 1]) + [AsciiChar(bytes[|bytes| - 1])]
  }

  lemma {:induction false} AsciiTextAt(bytes: seq<u8>, i: nat)
    requires i < |bytes|
    ensures AsciiText(bytes)[i] == AsciiChar(bytes[i])
  {
    if i < |bytes| - 1 {
      AsciiTextAt(bytes[..|bytes| - 1], i);
    }
  }

  // ---------------------------------------------------------------------
  // The table and the inline stream
  // ---------------------------------------------------------------------

  /** One table line for the bytes of line number `line`. */
  function FormatLine(line: nat, width: nat, bytes: seq<u8>, lineNumbers: bool, ascii: bool): string {
    (if lineNumbers then LineLabel(line, width) else "")
    + HexColumn(bytes)
    + (if ascii then " " + AsciiText(bytes) else "")
    + "\n"
  }

  /** A line of at most 16 bytes: the label when shown, the 48-character hex
      column, a space and one character per byte when the ASCII column is
      shown, and a final newline. */
  lemma FormatLineShape(line: nat, width: nat, bytes: seq<u8>, lineNumbers: bool, ascii: bool)
    requires |bytes| <= LINE_LENGTH
    ensures var r := FormatLine(line, width, bytes, lineNumbers, ascii);
            |r| == (if lineNumbers then |LineLabel(line, width)| else 0) + 3 * LINE_LENGTH
                   + (if ascii then 1 + |bytes| else 0) + 1 &&
            r[|r| - 1] == '\n'
  {
  }

  /** The table of `s`, whose first line has number `line`: one line per
      16 bytes, the last one possibly shorter. */
  function Table(s: seq<u8>, width: nat, line: nat, lineNumbers: bool, ascii: bool): (r: string)
    ensures |r| >= 3 * |s|
    decreases |s|
  {
    if s == [] then ""
    else
      var n := Min(LINE_LENGTH, |s|);
      FormatLine(line, width, s[..n], lineNumbers, ascii) + Table(s[n..], width, line + 1, lineNumbers, ascii)
  }

  /** The first line of a table and the rest. */
  lemma TableUnfold(s: seq<u8>, chunk: seq<u8>, rest: seq<u8>, width: nat, line: nat, lineNumbers: bool, ascii: bool)
    requires s == chunk + rest && chunk != [] && |chunk| == Min(LINE_LENGTH, |s|)
    ensures Table(s, width, line, lineNumbers, ascii)
         == FormatLine(line, width, chunk, lineNumbers, ascii) + Table(rest, width, line + 1, lineNumbers, ascii)
  {
    assert s[..|chunk|] == chunk && s[|chunk|..] == rest;
  }

  /** Appending one formatted line to the output keeps the text still to
      come equal to the table of the bytes still to read. */
  lemma TableStep(output: string, text: string, s: seq<u8>, chunk: seq<u8>, rest: seq<u8>,
                  width: nat, line: nat, lineNumbers: bool, ascii: bool)
    requires s == chunk + rest && chunk != [] && |chunk| == Min(LINE_LENGTH, |s|)
    requires text == FormatLine(line, width, chunk, lineNumbers, ascii)
    ensures (output + text) + Table(rest, width, line + 1, lineNumbers, ascii)
         == output + Table(s, width, line, lineNumbers, ascii)
  {
    TableUnfold(s, chunk, rest, width, line, lineNumbers, ascii);
  }

  /** Number of table lines for `len` bytes. */
  function LineCount(len: nat): nat {
    (len + LINE_LENGTH - 1) / LINE_LENGTH
  }

  /** Without labels and ASCII column every line is the 48-character hex
      column and a newline. */
  lemma {:induction false} TablePlainLength(s: seq<u8>, width: nat, line: nat)
    ensures |Table(s, width, line, false, false)| == (3 * LINE_LENGTH + 1) * LineCount(|s|)
  {
    if s != [] {
      var n := Min(LINE_LENGTH, |s|);
      TablePlainLength(s[n..], width, line + 1);
      assert LineCount(|s|) == 1 + LineCount(|s| - n);
    }
  }

  /** The inline stream: two uppercase hex digits per byte, no separators. */
  function InlineHex(s: seq<u8>): (r: string)
    ensures |r| == 2 * |s|
    ensures forall i :: 0 <= i < |s| ==> r[2 * i..2 * i + 2] == Hex2(s[i])
  {
    if s == [] then ""
    else
      var tail := InlineHex(s[1..]);
      var r := Hex2(s[0]) + tail;
      assert forall i :: 1 <= i < |s| ==> r[2 * i..2 * i + 2] == tail[2 * (i - 1)..2 * (i - 1) + 2];
      r
  }

  lemma {:induction false} InlineHexAppend(a: seq<u8>, b: seq<u8>)
    ensures InlineHex(a + b) == InlineHex(a) + InlineHex(b)
  {
    if a == [] {
      assert a + b == b;
    } else {
      assert (a + b)[0] == a[0] && (a + b)[1..] == a[1..] + b;
      InlineHexAppend(a[1..], b);
    }
  }

  /** Appending the hex of one chunk keeps the text still to come equal to
      the hex of the bytes still to read. */
  lemma InlineStep(output: string, s: seq<u8>, chunk: seq<u8>, rest: seq<u8>)
    requires s == chunk + rest
    ensures (output + InlineHex(chunk)) + InlineHex(rest) == output + InlineHex(s)
  {
    InlineHexAppend(chunk, rest);
  }

  /** Reads an inline stream back into bytes. */
  function DecodeInline(t: string): Option<seq<u8>>
    decreases |t|
  {
    if t == [] then Some([])
    else if |t| < 2 || !IsUpperHexDigit(t[0]) || !IsUpperHexDigit(t[1]) then None
    else
      match DecodeInline(t[2..])
      case None => None
      case Some(rest) => Some([(HexDigitValue(t[0]) * 16 + HexDigitValue(t[1])) as u8] + rest)
  }

  /** The inline stream loses nothing: decoding it gives the slice back. */
  lemma {:induction false} InlineHexRoundTrip(s: seq<u8>)
    ensures DecodeInline(InlineHex(s)) == Some(s)
  {
    if s != [] {
      var t := InlineHex(s);
      assert t[..2] == Hex2(s[0]) && t[2..] == InlineHex(s[1..]);
      assert HexDigitValue(t[0]) * 16 + HexDigitValue(t[1]) == s[0] as int;
      InlineHexRoundTrip(s[1..]);
      assert [s[0]] + s[1..] == s;
    }
  }

  /** The table of the single byte 0x41 with both columns: label "0x0",
      the cell "41" padded to 16 cells, the ASCII column "A". */
  lemma OneByteTable()
    ensures Table([0x41], LabelWidth(1), 0, true, true) == "0x0  41 " + Spaces(45) + " A\n"
  {
    assert HexUpper(0) == "0";
    assert LabelWidth(1) == 1;
    assert ZeroPad("0", 1) == "0";
    assert LineLabel(0, 1) == "0x0  ";
    assert Hex2(0x41) == "41";
    assert HexCells([0x41]) == "41 ";
    assert HexColumn([0x41]) == "41 " + Spaces(45);
    assert AsciiText([0x41]) == "A";
    var bytes: seq<u8> := [0x41];
    assert bytes[..Min(LINE_LENGTH, 1)] == bytes && bytes[Min(LINE_LENGTH, 1)..] == [];
    assert FormatLine(0, 1, bytes, true, true) == "0x0  " + ("41 " + Spaces(45)) + (" " + "A") + "\n";
  }

  /** The inline stream of [0x0A, 0xFF, 0x00]. */
  lemma InlineExample()
    ensures InlineHex([0x0A, 0xFF, 0x00]) == "0AFF00"
  {
    assert Hex2(0x0A) == "0A" && Hex2(0xFF) == "FF" && Hex2(0x00) == "00";
  }

  // ---------------------------------------------------------------------
  // The display loops
  // ---------------------------------------------------------------------

  /** One table line built from the first `n` bytes of the read buffer, as
      the body of the display loop does: label, hex cells, padding, and the
      ASCII column appended character by character. */
  method FormatBufferLine(buffer: array<u8>, n: nat, lineNumber: nat, width: nat, lineNumbers: bool, ascii: bool)
    returns (line: string)
    requires n <= buffer.Length
    ensures line == FormatLine(lineNumber, width, buffer[..n], lineNumbers, ascii)
  {
    var bytes := buffer[..n];
    var numberColumn := if lineNumbers then LineLabel(lineNumber, width) else "";
    var asciiColumn := "";
    if ascii {
      asciiColumn := " ";
      var i := 0;
      while i < n
        invariant 0 <= i <= n
        invariant asciiColumn == " " + AsciiText(bytes[..i])
      {
        assert bytes[..i + 1][..i] == bytes[..i];
        asciiColumn := asciiColumn + [AsciiChar(bytes[i])];
        i := i + 1;
      }
      assert bytes[..n] == bytes;
    }
    line := numberColumn + HexColumn(bytes) + asciiColumn + "\n";
  }

  /** The whole output of the viewer for a reader: the inline stream or the
      table of the bytes still to be read, the label width taken from the
      slice length. The result is everything printed, in order. */
  method ReiX(reader: SliceFileReader, lineNumbers: bool, ascii: bool, inline: bool)
    returns (output: string)
    requires reader.Valid()
    modifies reader
    ensures reader.Valid() && reader.current == reader.end
    ensures inline ==> output == InlineHex(old(reader.Remaining()))
    ensures !inline ==>
              output == Table(old(reader.Remaining()), LabelWidth(reader.Len()), 0, lineNumbers, ascii)
  {
    if inline {
      output := ReiXInline(reader);
    } else {
      output := ReiXTable(reader, lineNumbers, ascii);
    }
  }

  /** Table mode, the body of `ReiX` after the inline dispatch: one line per
      16-byte read, numbered from 0, the label width fixed from the slice
      length before the first read. */
  method ReiXTable(reader: SliceFileReader, lineNumbers: bool, ascii: bool)
    returns (output: string)
    requires reader.Valid()
    modifies reader
    ensures reader.Valid() && reader.current == reader.end
    ensures output == Table(old(reader.Remaining()), LabelWidth(reader.Len()), 0, lineNumbers, ascii)
  {
    var buffer := new u8[LINE_LENGTH];
    var lineNumber: nat := 0;
    output := "";
    var fileLength := reader.Len();
    var lineNumberWidth := |HexUpper(fileLength / LINE_LENGTH)|;
    ghost var all := reader.Remaining();
    while true
      invariant reader.Valid() && fresh(buffer) && buffer.Length == LINE_LENGTH
      invariant output + Table(reader.Remaining(), lineNumberWidth, lineNumber, lineNumbers, ascii)
             == Table(all, lineNumberWidth, 0, lineNumbers, ascii)
      decreases reader.end - reader.current
    {
      ghost var before := reader.Remaining();
      var bytesRead := reader.Read(buffer);
      if bytesRead == 0 {
        break;
      }
      var line := FormatBufferLine(buffer, bytesRead, lineNumber, lineNumberWidth, lineNumbers, ascii);
      TableStep(output, line, before, buffer[..bytesRead], reader.Remaining(), lineNumberWidth, lineNumber, lineNumbers, ascii);
      output := output + line;
      lineNumber := lineNumber + 1;
    }
    assert reader.Remaining() == [];
  }

  /** Inline mode: every byte still to be read, as hex, in 1024-byte chunks.
      The branch taken once the running total reaches the slice length emits
      the same bytes as the ordinary path, since the reader never delivers
      more than the slice holds. */
  method ReiXInline(reader: SliceFileReader) returns (output: string)
    requires reader.Valid()
    modifies reader
    ensures reader.Valid() && reader.current == reader.end
    ensures output == InlineHex(old(reader.Remaining()))
  {
    var buffer := new u8[INLINE_CHUNK];
    output := "";
    var totalBytesRead: nat := 0;
    var length := reader.Len();
    ghost var first := reader.current;
    while true
      invariant reader.Valid() && fresh(buffer) && buffer.Length == INLINE_CHUNK
      invariant reader.current == first + totalBytesRead
      invariant output + InlineHex(reader.Remaining()) == InlineHex(old(reader.Remaining()))
      decreases reader.end - reader.current
    {
      ghost var before := reader.Remaining();
      var bytesRead := reader.Read(buffer);
      if bytesRead == 0 {
        break;
      }
      InlineStep(output, before, buffer[..bytesRead], reader.Remaining());
      totalBytesRead := totalBytesRead + bytesRead;
      if totalBytesRead >= length {
        var bytesToRead := length - (totalBytesRead - bytesRead);
        assert bytesToRead == bytesRead && reader.current == reader.end;
        output := output + InlineHex(buffer[..bytesToRead]);
        break;
      }
      output := output + InlineHex(buffer[..bytesRead]);
    }
  }
}
