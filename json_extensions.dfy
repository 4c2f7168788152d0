/** JsonExtensions.cs: appending one serialised element to a JSON array kept in
    a file. The file is its bytes, or `None` when it does not exist; the
    serialised element is the string the serialiser produced. */
module JsonExtensions {
  import opened Wrappers
  import opened Text

  /** The bytes the backward scan steps over: NUL, and every byte that is
      white space when read as a `char`. */
  predicate IsSkipped(b: byte) {
    b == 0 || IsWhiteSpace(b as char)
  }

  /** The position of the last byte that is not skipped, if any. */
  function LastSignificant(bytes: seq<byte>): (r: Option<nat>)
    ensures r.Some? ==> r.value < |bytes| && !IsSkipped(bytes[r.value])
    ensures r.Some? ==> forall i :: r.value < i < |bytes| ==> IsSkipped(bytes[i])
    ensures r.None? ==> forall i :: 0 <= i < |bytes| ==> IsSkipped(bytes[i])
    decreases |bytes|
  {
    if bytes == [] then None
    else if IsSkipped(bytes[|bytes| - 1]) then LastSignificant(bytes[..|bytes| - 1])
    else Some(|bytes| - 1)
  }

  /** `Encoding.ASCII.GetBytes`: every character above U+007F becomes '?'. */
  function AsciiBytes(s: string): (r: seq<byte>)
    ensures |r| == |s|
    ensures forall i :: 0 <= i < |s| ==> r[i] == if s[i] < '\U{0080}' then s[i] as int else '?' as int
  {
    seq(|s|, i requires 0 <= i < |s| => if s[i] < '\U{0080}' then s[i] as int else '?' as int)
  }

  /** Writing `w` at position `p` of a stream holding `bytes`: the bytes
      before `p` stay, `w` replaces what was there, and a longer stream keeps
      its tail, since nothing truncates it. */
  function Overwrite(bytes: seq<byte>, p: nat, w: seq<byte>): (r: seq<byte>)
    requires p <= |bytes|
    ensures |r| == Max(|bytes|, p + |w|)
    ensures r[..p] == bytes[..p] && r[p..p + |w|] == w
    ensures forall i :: p + |w| <= i < |bytes| ==> r[i] == bytes[i]
  {
    bytes[..p] + w + (if p + |w| < |bytes| then bytes[p + |w|..] else [])
  }

  /** The text a new file is created with. */
  function NewFileText(jsonString: string, newLine: string): string {
    "[" + newLine + jsonString + newLine + "]"
  }

  /** The text written over the closing bracket of an existing array. */
  function ElementText(jsonString: string, newLine: string): (r: string)
    ensures |r| > 0 && r[|r| - 1] == ']'
  {
    "," + newLine + jsonString + newLine + "]"
  }

  /** The file after `WriteJsonToFileAsArrayElement`; `utf8` is the encoding
      `File.WriteAllText` applies. */
  function AppendedArrayElement(file: Option<seq<byte>>, jsonString: string, newLine: string,
                                utf8: string -> seq<byte>): Option<seq<byte>> {
    match file
    case None => Some(utf8(NewFileText(jsonString, newLine)))
    case Some(bytes) =>
      match LastSignificant(bytes)
      case Some(p) =>
        if bytes[p] == ']' as int then Some(Overwrite(bytes, p, AsciiBytes(ElementText(jsonString, newLine))))
        else file
      case None => file
  }

  /** A file system holding the one file the operation touches. */
  class FileStore {
    var content: Option<seq<byte>>

    constructor(content: Option<seq<byte>>)
      ensures this.content == content
    {
      this.content := content;
    }
  }

  /** `WriteJsonToFileAsArrayElement`: a missing file is created holding a
      one-element array; otherwise the stream is read backwards from its end
      past NUL and white-space bytes, and a ']' found there is overwritten by
      the new element and a new ']'. Any other last byte stops the scan and
      leaves the file alone. */
  method WriteJsonToFileAsArrayElement(file: FileStore, jsonString: string, newLine: string,
                                       utf8: string -> seq<byte>)
    modifies file
    ensures file.content == AppendedArrayElement(old(file.content), jsonString, newLine, utf8)
  {
    if file.content.None? {
      file.content := Some(utf8(NewFileText(jsonString, newLine)));
      return;
    }
    var bytes := file.content.value;
    var newPosition := |bytes|;
    while newPosition > 0
      invariant 0 <= newPosition <= |bytes| && file.content == Some(bytes)
      invariant LastSignificant(bytes) == LastSignificant(bytes[..newPosition])
    {
      newPosition := newPosition - 1;
      var d := bytes[newPosition];
      assert bytes[..newPosition + 1][..newPosition] == bytes[..newPosition];
      if IsSkipped(d) {
        continue;
      }
      if d == ']' as int {
        file.content := Some(Overwrite(bytes, newPosition, AsciiBytes(ElementText(jsonString, newLine))));
      }
      break;
    }
  }

  /** Once a ']' closes the array, appending keeps exactly the bytes before it,
      writes the new element at its place and leaves a ']' as the last
      significant byte again, so the file stays a closed array and can be
      appended to once more. */
  lemma AppendKeepsArrayClosed(bytes: seq<byte>, jsonString: string, newLine: string,
                               utf8: string -> seq<byte>)
    requires LastSignificant(bytes).Some? && bytes[LastSignificant(bytes).value] == ']' as int
    ensures AppendedArrayElement(Some(bytes), jsonString, newLine, utf8)
            == Some(Overwrite(bytes, LastSignificant(bytes).value, AsciiBytes(ElementText(jsonString, newLine))))
    ensures LastSignificant(Overwrite(bytes, LastSignificant(bytes).value, AsciiBytes(ElementText(jsonString, newLine))))
            == Some(LastSignificant(bytes).value + |ElementText(jsonString, newLine)| - 1)
  {
    var p := LastSignificant(bytes).value;
    var e := ElementText(jsonString, newLine);
    var w := AsciiBytes(e);
    assert w[|w| - 1] == ']' as int;
    OverwriteClosing(bytes, p, w);
  }

  /** Writing bytes ending in ']' over the last significant byte leaves that
      ']' as the last significant byte. */
  lemma OverwriteClosing(bytes: seq<byte>, p: nat, w: seq<byte>)
    requires LastSignificant(bytes) == Some(p)
    requires |w| > 0 && w[|w| - 1] == ']' as int
    ensures LastSignificant(Overwrite(bytes, p, w)) == Some(p + |w| - 1)
  {
    var r := Overwrite(bytes, p, w);
    assert r[p..p + |w|] == w;
    assert r[p + |w| - 1] == w[|w| - 1];
    assert !IsSkipped(']' as int);
    forall i | p + |w| - 1 < i < |r|
      ensures IsSkipped(r[i])
    {
      assert r[i] == bytes[i];
    }
    LastSignificantAt(r, p + |w| - 1);
  }

  /** A byte that is not skipped, followed only by skipped bytes, is the last
      significant one. */
  lemma {:induction false} LastSignificantAt(bytes: seq<byte>, p: nat)
    requires p < |bytes| && !IsSkipped(bytes[p])
    requires forall i :: p < i < |bytes| ==> IsSkipped(bytes[i])
    ensures LastSignificant(bytes) == Some(p)
    decreases |bytes|
  {
    if p < |bytes| - 1 {
      var init := bytes[..|bytes| - 1];
      LastSignificantAt(init, p);
    }
  }

  /** When the last significant byte is not ']', or there is none, the file
      is left as it was. */
  lemma AppendWithoutBracketIsNoop(bytes: seq<byte>, jsonString: string, newLine: string,
                                   utf8: string -> seq<byte>)
    requires LastSignificant(bytes).None? || bytes[LastSignificant(bytes).value] != ']' as int
    ensures AppendedArrayElement(Some(bytes), jsonString, newLine, utf8) == Some(bytes)
    ensures (forall i :: 0 <= i < |bytes| ==> IsSkipped(bytes[i])) ||
            exists i :: 0 <= i < |bytes| && !IsSkipped(bytes[i]) && bytes[i] != ']' as int
  {
  }
}
