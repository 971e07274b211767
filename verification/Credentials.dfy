/** The credential files: how they are written, and the line-based reader that loads them. */
module Credentials {
  import opened Binary
  import opened Protocol
  import Hex
  import Base64

  const NEWLINE: Byte := '\n' as int

  // ---------------------------------------------------------------------------
  // Lines and trimming
  // ---------------------------------------------------------------------------

  /** The text before the first line break. */
  function FirstLine(text: Bytes): (line: Bytes)
    ensures |line| <= |text|
  {
    if text == [] || text[0] == NEWLINE then [] else [text[0]] + FirstLine(text[1..])
  }

  /** What is left after `std::getline`: the line break is consumed, too. */
  function AfterLine(text: Bytes): (rest: Bytes)
    ensures text != [] ==> |rest| < |text|
  {
    if text == [] then [] else if text[0] == NEWLINE then text[1..] else AfterLine(text[1..])
  }

  function TrimLeft(text: Bytes): Bytes {
    if text != [] && Hex.IsSpace(text[0]) then TrimLeft(text[1..]) else text
  }

  function TrimRight(text: Bytes): Bytes {
    if text != [] && Hex.IsSpace(text[|text| - 1]) then TrimRight(text[..|text| - 1]) else text
  }

  function Trim(text: Bytes): Bytes {
    TrimRight(TrimLeft(text))
  }

  /** All remaining lines, trimmed and joined. */
  function JoinLines(text: Bytes): Bytes
    decreases |text|
  {
    if text == [] then [] else Trim(FirstLine(text)) + JoinLines(AfterLine(text))
  }

  // ---------------------------------------------------------------------------
  // What the loaders make of the contents of a file (`None`: an exception)
  // ---------------------------------------------------------------------------

  function RequiredLine(text: Bytes): Option<Bytes> {
    if text == [] then None else Some(Trim(FirstLine(text)))
  }

  function UsernameIn(file: Option<Bytes>): Option<Bytes> {
    if file.None? then None else RequiredLine(file.value)
  }

  function UserIdIn(file: Option<Bytes>): Option<Bytes> {
    if file.None? || file.value == [] then None else RequiredLine(AfterLine(file.value))
  }

  function PrivateKeyIn(file: Option<Bytes>): Option<Bytes> {
    if file.None? || file.value == [] || AfterLine(file.value) == [] then None
    else
      var key := JoinLines(AfterLine(AfterLine(file.value)));
      if key == [] then None else Some(key)
  }

  function AesKeyIn(file: Option<Bytes>): Option<Bytes> {
    if file.None? || file.value == [] then None
    else
      var key := Base64.Decode(Trim(FirstLine(file.value)));
      if key == [] then None else Some(key)
  }

  // ---------------------------------------------------------------------------
  // The loaders
  // ---------------------------------------------------------------------------

  class InputStream {
    var rest: Bytes

    constructor (content: Bytes)
      ensures rest == content
    {
      rest := content;
    }

    /** `std::getline`: fails at the end of the stream. */
    method GetLine() returns (line: Option<Bytes>)
      modifies this
      ensures line == if old(rest) == [] then None else Some(FirstLine(old(rest)))
      ensures rest == AfterLine(old(rest))
    {
      if rest == [] {
        return None;
      }
      var text: Bytes := [];
      while rest != [] && rest[0] != NEWLINE
        invariant text + FirstLine(rest) == FirstLine(old(rest))
        invariant AfterLine(rest) == AfterLine(old(rest))
        decreases |rest|
      {
        text := text + [rest[0]];
        rest := rest[1..];
      }
      assert text + [] == text;
      if rest != [] {
        rest := rest[1..];
      }
      line := Some(text);
    }

    method ReadRequiredLine() returns (line: Option<Bytes>)
      modifies this
      ensures line == RequiredLine(old(rest))
      ensures rest == AfterLine(old(rest))
    {
      var raw := GetLine();
      line := if raw.None? then None else Some(Trim(raw.value));
    }
  }

  method LoadUsername(file: Option<Bytes>) returns (username: Option<Bytes>)
    ensures username == UsernameIn(file)
  {
    if file.None? {
      return None;
    }
    var stream := new InputStream(file.value);
    username := stream.ReadRequiredLine();
  }

  method LoadUserId(file: Option<Bytes>) returns (id: Option<Bytes>)
    ensures id == UserIdIn(file)
  {
    if file.None? {
      return None;
    }
    var stream := new InputStream(file.value);
    var username := stream.ReadRequiredLine();
    if username.None? {
      return None;
    }
    id := stream.ReadRequiredLine();
  }

  method LoadPrivateKey(file: Option<Bytes>) returns (key: Option<Bytes>)
    ensures key == PrivateKeyIn(file)
  {
    hide Trim, FirstLine;
    if file.None? {
      return None;
    }
    var stream := new InputStream(file.value);
    var username := stream.ReadRequiredLine();
    if username.None? {
      return None;
    }
    var id := stream.ReadRequiredLine();
    if id.None? {
      return None;
    }
    var text: Bytes := [];
    ghost var all := JoinLines(stream.rest);
    var line := stream.GetLine();
    while line.Some?
      invariant all == text + if line.Some? then Trim(line.value) + JoinLines(stream.rest) else []
      decreases |stream.rest|, line.Some?
    {
      assert text + (Trim(line.value) + JoinLines(stream.rest)) == text + Trim(line.value) + JoinLines(stream.rest);
      text := text + Trim(line.value);
      line := stream.GetLine();
    }
    assert text + [] == text;
    key := if text == [] then None else Some(text);
  }

  method LoadAesKey(file: Option<Bytes>) returns (key: Option<Bytes>)
    ensures key == AesKeyIn(file)
  {
    if file.None? {
      return None;
    }
    var stream := new InputStream(file.value);
    var line := stream.ReadRequiredLine();
    if line.None? {
      return None;
    }
    var decoded := Base64.Decode(line.value);
    key := if decoded == [] then None else Some(decoded);
  }

  // ---------------------------------------------------------------------------
  // What the writers produce
  // ---------------------------------------------------------------------------

  /** The first two lines of `me.info`. */
  function IdentityLines(username: Bytes, id: UserId): Bytes {
    username + [NEWLINE] + (Hex.HexOf(id) + [NEWLINE])
  }

  lemma {:induction false} LineIsRead(line: Bytes, rest: Bytes)
    requires forall i :: 0 <= i < |line| ==> line[i] != NEWLINE
    ensures FirstLine(line + [NEWLINE] + rest) == line
    ensures AfterLine(line + [NEWLINE] + rest) == rest
  {
    var text := line + [NEWLINE] + rest;
    if line == [] {
      assert text[1..] == rest;
    } else {
      LineIsRead(line[1..], rest);
      assert text[1..] == line[1..] + [NEWLINE] + rest;
    }
  }

  lemma TrimKeepsGraphic(text: Bytes)
    requires Base64.Graphic(text)
    ensures Trim(text) == text
  {
  }

  lemma IdentityIsGraphic(username: Bytes, id: UserId)
    requires IsValidUsername(username)
    ensures Base64.Graphic(username) && Base64.Graphic(Hex.HexOf(id))
  {
  }

  /** Joining the lines of a wrapped text undoes the wrapping. */
  lemma {:induction false} JoinOfWrap(text: Bytes, width: nat)
    requires width > 0 && Base64.Graphic(text)
    ensures JoinLines(Base64.Wrap(text, width)) == text
    decreases |text|
  {
    if |text| <= width {
      LineIsRead(text, []);
      assert text + [NEWLINE] + [] == Base64.Wrap(text, width);
      TrimKeepsGraphic(text);
      assert text + [] == text;
    } else {
      var head, tail := text[..width], text[width..];
      JoinOfWrap(tail, width);
      LineIsRead(head, Base64.Wrap(tail, width));
      TrimKeepsGraphic(head);
      assert text == head + tail;
    }
  }

  /** `me.info` with two lines: both are recovered, and there is no private key. */
  lemma IdentityRoundTrip(username: Bytes, id: UserId)
    requires IsValidUsername(username)
    ensures var file := Some(IdentityLines(username, id));
            && UsernameIn(file) == Some(username)
            && UserIdIn(file) == Some(Hex.HexOf(id))
            && PrivateKeyIn(file) == None
  {
    IdentityIsGraphic(username, id);
    LineIsRead(username, Hex.HexOf(id) + [NEWLINE]);
    LineIsRead(Hex.HexOf(id), []);
    assert Hex.HexOf(id) + [NEWLINE] + [] == Hex.HexOf(id) + [NEWLINE];
    TrimKeepsGraphic(username);
    TrimKeepsGraphic(Hex.HexOf(id));
  }

  /**
   * `me.info` with a private key of any length appended: name and ID are recovered, and so is the key, unless
   * it is empty; then it counts as missing.
   */
  lemma KeyedIdentityRoundTrip(username: Bytes, id: UserId, key: Bytes, width: nat)
    requires IsValidUsername(username) && width > 0
    ensures var file := Some(IdentityLines(username, id) + Base64.EncodeLines(key, width));
            && UsernameIn(file) == Some(username)
            && UserIdIn(file) == Some(Hex.HexOf(id))
            && PrivateKeyIn(file) == (if key == [] then None else Some(Base64.Encode(key)))
            && Base64.Decode(Base64.Encode(key)) == key
  {
    hide Base64.Encode, Base64.Decode, Hex.HexOf, Trim, IsValidUsername;
    var lines, hex := Base64.EncodeLines(key, width), Hex.HexOf(id);
    IdentityIsGraphic(username, id);
    Base64.EncodedIsGraphic(key);
    LineIsRead(username, hex + [NEWLINE] + lines);
    LineIsRead(hex, lines);
    assert IdentityLines(username, id) + lines == username + [NEWLINE] + (hex + [NEWLINE] + lines);
    TrimKeepsGraphic(username);
    TrimKeepsGraphic(hex);
    JoinOfWrap(Base64.Encode(key), width);
    Base64.DecodeOfEncode(key);
    assert |Base64.Encode(key)| == (|key| + 2) / 3 * 4;
  }

  /** The first line of a wrapped encoding. */
  lemma FirstLineOfEncoding(key: Bytes, width: nat)
    requires width > 0
    ensures Base64.EncodeLines(key, width) != []
    ensures Trim(FirstLine(Base64.EncodeLines(key, width)))
         == Base64.Encode(key)[..Min(width, |Base64.Encode(key)|)]
  {
    var text := Base64.Encode(key);
    if |text| <= width {
      LineIsRead(text, []);
      assert text + [NEWLINE] + [] == text + [NEWLINE];
      TrimKeepsGraphic(text);
    } else {
      LineIsRead(text[..width], Base64.Wrap(text[width..], width));
      TrimKeepsGraphic(text[..width]);
    }
  }

  /** The loader reads the first line only: whole bytes of as many characters as the line holds. */
  lemma LoadedAesKeySize(key: Bytes, width: nat)
    requires width > 0
    ensures var loaded := AesKeyIn(Some(Base64.EncodeLines(key, width)));
            var n := Min(width, |Base64.Sextets(key)|);
            && (loaded.None? <==> 3 * n / 4 == 0)
            && (loaded.Some? ==> |loaded.value| == 3 * n / 4)
            && (n == |Base64.Sextets(key)| && loaded.Some? ==> loaded.value == key)
  {
    FirstLineOfEncoding(key, width);
    var text, sextets := Base64.Encode(key), |Base64.Sextets(key)|;
    var shown := Min(width, |text|);
    if shown <= sextets {
      Base64.DecodeOfPrefix(key, shown);
    } else {
      Base64.DecodeOfPrefix(key, sextets);
      PaddingIsSkipped(key, shown);
    }
  }

  lemma PaddingIsSkipped(key: Bytes, n: nat)
    requires |Base64.Sextets(key)| <= n <= |Base64.Encode(key)|
    ensures Base64.Decode(Base64.Encode(key)[..n]) == Base64.Decode(Base64.Encode(key)[..|Base64.Sextets(key)|])
  {
    var text, sextets := Base64.Encode(key), |Base64.Sextets(key)|;
    var pad := text[sextets..n];
    assert text[..n] == text[..sextets] + pad;
    assert forall i :: 0 <= i < |pad| ==> pad[i] == text[sextets + i] == Base64.PAD;
    Base64.ValuesConcat(text[..sextets], pad);
    Base64.ValuesOfForeign(pad);
    assert Base64.Values(text[..sextets]) + [] == Base64.Values(text[..sextets]);
  }

  /** A 32-byte AES key survives being saved and loaded exactly when a line holds 43 characters or more. */
  lemma AesKeySurvives(key: Bytes, width: nat)
    requires |key| == 32 && width > 0
    ensures AesKeyIn(Some(Base64.EncodeLines(key, width))) == Some(key) <==> width >= 43
  {
    LoadedAesKeySize(key, width);
  }

  /** With lines of 44 characters or more a loaded key of 32 bytes is the saved one, whatever was saved. */
  lemma LoadedAesKeyIsSaved(key: Bytes, width: nat)
    requires width >= 44
    ensures var loaded := AesKeyIn(Some(Base64.EncodeLines(key, width)));
            loaded.Some? && |loaded.value| == 32 ==> loaded.value == key
  {
    LoadedAesKeySize(key, width);
  }

  // ---------------------------------------------------------------------------
  // Lines and white space, exactly
  // ---------------------------------------------------------------------------

  /** Tab, line feed, vertical tab, form feed, carriage return and the blank. */
  ghost predicate IsBlank(text: Bytes) {
    forall i :: 0 <= i < |text| ==> text[i] in {9, 10, 11, 12, 13, 32}
  }

  ghost predicate Untrimmable(text: Bytes) {
    text != [] ==> !IsBlank(text[..1]) && !IsBlank(text[|text| - 1..])
  }

  /** Trimming takes off white space at both ends, all of it and nothing else. */
  lemma TrimIs(text: Bytes)
    ensures exists before, after :: IsBlank(before) && IsBlank(after) && text == before + Trim(text) + after
    ensures Untrimmable(Trim(text))
  {
    var before := TrimLeftIs(text);
    var after := TrimRightIs(TrimLeft(text));
    assert text == before + Trim(text) + after;
  }

  lemma {:induction false} TrimLeftIs(text: Bytes) returns (before: Bytes)
    ensures IsBlank(before) && text == before + TrimLeft(text)
    ensures TrimLeft(text) != [] ==> !Hex.IsSpace(TrimLeft(text)[0])
  {
    if text != [] && Hex.IsSpace(text[0]) {
      var rest := TrimLeftIs(text[1..]);
      before := [text[0]] + rest;
      assert text == [text[0]] + text[1..];
    } else {
      before := [];
    }
  }

  lemma {:induction false} TrimRightIs(text: Bytes) returns (after: Bytes)
    ensures IsBlank(after) && text == TrimRight(text) + after
    ensures TrimRight(text) != [] ==>
              TrimRight(text)[0] == text[0] && !Hex.IsSpace(TrimRight(text)[|TrimRight(text)| - 1])
  {
    if text != [] && Hex.IsSpace(text[|text| - 1]) {
      var rest := TrimRightIs(text[..|text| - 1]);
      after := rest + [text[|text| - 1]];
      assert text == text[..|text| - 1] + [text[|text| - 1]];
    } else {
      after := [];
    }
  }

  /** A line ends at the first line feed (byte 10), which belongs to neither part. */
  lemma {:induction false} LineIs(text: Bytes)
    ensures forall i :: 0 <= i < |FirstLine(text)| ==> FirstLine(text)[i] != 10
    ensures text == FirstLine(text) + [10] + AfterLine(text) || (text == FirstLine(text) && AfterLine(text) == [])
  {
    if text != [] {
      assert text == [text[0]] + text[1..];
      if text[0] != 10 {
        LineIs(text[1..]);
      }
    }
  }

  /** Whatever white space is around a text that has none at its ends, trimming gives that text. */
  lemma {:induction false} TrimDrops(before: Bytes, text: Bytes, after: Bytes)
    requires IsBlank(before) && IsBlank(after) && Untrimmable(text)
    ensures Trim(before + text + after) == text
    decreases |before| + |after|
  {
    var line := before + text + after;
    if before != [] {
      TrimDrops(before[1..], text, after);
      assert line[1..] == before[1..] + text + after;
    } else if text == [] {
      TrimOfBlank(line);
    } else {
      assert TrimLeft(line) == line == text + after;
      TrimRightDrops(text, after);
    }
  }

  lemma {:induction false} TrimOfBlank(line: Bytes)
    requires IsBlank(line)
    ensures Trim(line) == []
  {
    if line != [] {
      TrimOfBlank(line[1..]);
    }
  }

  lemma {:induction false} TrimRightDrops(text: Bytes, after: Bytes)
    requires IsBlank(after) && text != [] && !Hex.IsSpace(text[|text| - 1])
    ensures TrimRight(text + after) == text
  {
    if after == [] {
      assert text + after == text;
    } else {
      var line := text + after;
      assert line[..|line| - 1] == text + after[..|after| - 1];
      TrimRightDrops(text, after[..|after| - 1]);
    }
  }

  /** A line of a credential file: a text with white space around it. */
  datatype Line = Line(before: Bytes, text: Bytes, after: Bytes) {
    ghost predicate Valid() {
      && IsBlank(before) && IsBlank(after) && Untrimmable(text)
      && forall i :: 0 <= i < |Content()| ==> Content()[i] != 10
    }

    function Content(): Bytes {
      before + text + after
    }
  }

  /** A file of these lines, each with a line feed (byte 10). */
  function FileOf(lines: seq<Line>): Bytes {
    if lines == [] then [] else lines[0].Content() + [10] + FileOf(lines[1..])
  }

  function TextsOf(lines: seq<Line>): Bytes {
    if lines == [] then [] else lines[0].text + TextsOf(lines[1..])
  }

  lemma FirstOfFile(lines: seq<Line>)
    requires lines != [] && lines[0].Valid()
    ensures FileOf(lines) != [] && AfterLine(FileOf(lines)) == FileOf(lines[1..])
    ensures Trim(FirstLine(FileOf(lines))) == lines[0].text
  {
    hide Trim;
    var line := lines[0];
    LineIsRead(line.Content(), FileOf(lines[1..]));
    TrimDrops(line.before, line.text, line.after);
  }

  lemma {:induction false} JoinOfFile(lines: seq<Line>)
    requires forall i :: 0 <= i < |lines| ==> lines[i].Valid()
    ensures JoinLines(FileOf(lines)) == TextsOf(lines)
  {
    if lines != [] {
      FirstOfFile(lines);
      JoinOfFile(lines[1..]);
    }
  }

  /**
   * What the loaders find in any file of whole lines, whatever white space (carriage returns, for one) surrounds
   * the texts: the first, the second, all others joined; and the first decoded. What is missing or empty is
   * reported, except an empty name or ID.
   */
  lemma LoadersOfLines(lines: seq<Line>)
    requires forall i :: 0 <= i < |lines| ==> lines[i].Valid()
    ensures var file := Some(FileOf(lines));
            && UsernameIn(file) == (if |lines| >= 1 then Some(lines[0].text) else None)
            && UserIdIn(file) == (if |lines| >= 2 then Some(lines[1].text) else None)
            && (|lines| < 3 ==> PrivateKeyIn(file) == None)
            && (|lines| >= 3 ==>
                  PrivateKeyIn(file) == if TextsOf(lines[2..]) == [] then None else Some(TextsOf(lines[2..])))
            && (|lines| == 0 ==> AesKeyIn(file) == None)
            && (|lines| >= 1 ==>
                  var key := Base64.Decode(lines[0].text);
                  AesKeyIn(file) == if key == [] then None else Some(key))
  {
    hide Trim, Line.Valid, Base64.Decode;
    if |lines| >= 1 {
      FirstOfFile(lines);
    }
    if |lines| >= 2 {
      FirstOfFile(lines[1..]);
      assert lines[1..][1..] == lines[2..];
      JoinOfFile(lines[2..]);
    }
  }

  /** Every text that is empty or ends with a line feed is a file of such lines. */
  lemma {:induction false} LinesExist(text: Bytes) returns (lines: seq<Line>)
    requires text == [] || text[|text| - 1] == 10
    ensures (forall i :: 0 <= i < |lines| ==> lines[i].Valid()) && FileOf(lines) == text
    decreases |text|
  {
    hide Trim, FirstLine, AfterLine, IsBlank, Untrimmable;
    if text == [] {
      lines := [];
    } else {
      var line, rest := FirstLine(text), AfterLine(text);
      LineIs(text);
      TrimIs(line);
      var before, after :| IsBlank(before) && IsBlank(after) && line == before + Trim(line) + after;
      assert text == line + [10] + rest;
      assert rest != [] ==> rest[|rest| - 1] == text[|text| - 1];
      var tail := LinesExist(rest);
      lines := [Line(before, Trim(line), after)] + tail;
    }
  }

  /** If the last line feed is missing, the loaders find the same. */
  lemma OpenEnd(text: Bytes)
    requires text != [] && text[|text| - 1] != 10
    ensures UsernameIn(Some(text + [10])) == UsernameIn(Some(text))
    ensures UserIdIn(Some(text + [10])) == UserIdIn(Some(text))
    ensures PrivateKeyIn(Some(text + [10])) == PrivateKeyIn(Some(text))
    ensures AesKeyIn(Some(text + [10])) == AesKeyIn(Some(text))
  {
    hide Trim, FirstLine, AfterLine, JoinLines, Base64.Decode;
    OpenLine(text);
    var rest := AfterLine(text);
    if rest != [] {
      OpenLine(rest);
      if AfterLine(rest) != [] {
        OpenJoin(AfterLine(rest));
      }
    }
  }

  lemma {:induction false} OpenLine(text: Bytes)
    requires text != [] && text[|text| - 1] != 10
    ensures FirstLine(text + [10]) == FirstLine(text)
    ensures AfterLine(text + [10]) == if AfterLine(text) == [] then [] else AfterLine(text) + [10]
    ensures AfterLine(text) != [] ==> AfterLine(text)[|AfterLine(text)| - 1] != 10
  {
    assert (text + [10])[1..] == text[1..] + [10];
    if text[0] != 10 && |text| > 1 {
      OpenLine(text[1..]);
    }
  }

  lemma {:induction false} OpenJoin(text: Bytes)
    requires text != [] && text[|text| - 1] != 10
    ensures JoinLines(text + [10]) == JoinLines(text)
    decreases |text|
  {
    hide Trim, FirstLine, AfterLine;
    OpenLine(text);
    if AfterLine(text) != [] {
      OpenJoin(AfterLine(text));
    }
  }

  /** The two lines that are written: the name, then the ID in lower-case digits, each with a line feed (byte 10). */
  lemma IdentityIsTwoLines(username: Bytes, id: UserId)
    ensures IdentityLines(username, id) == username + [10] + Hex.HexOf(id) + [10]
  {
  }
}
