/** The message of the repository-backed chat example and its storage
    format: the UTF-8 text `sender \n timestamp \n base64(utf8(content))`.
    The Base64 field never holds a line break, so content may hold line
    breaks; the sender may not, since the first line break ends it. */
module ChatMessage {

  import opened Wrappers
  import opened Bytes
  import Utf8
  import Base64
  import IsoInstant
  import Strings

  datatype ChatMessage = ChatMessage(sender: string, timestamp: IsoInstant.Instant, content: string)

  /** What the IllegalArgumentException "Invalid chat message encoding"
      wraps: nothing when the text has too few fields, otherwise the failure
      of the timestamp or the Base64 field. */
  datatype Cause = NoCause | DateTimeParse | IllegalBase64

  datatype Error = InvalidEncoding(cause: Cause)

  /** The text that `toBytes` encodes. When the sender holds no line break,
      it holds exactly two, and the first one ends the sender. */
  function Serialise(m: ChatMessage): (text: string)
    ensures '\n' !in m.sender ==>
              && multiset(text)['\n'] == 2
              && |m.sender| < |text| && text[..|m.sender|] == m.sender && text[|m.sender|] == '\n'
  {
    var b64 := Base64.Encode(Utf8.Encode(m.content));
    var ts := IsoInstant.Format(m.timestamp);
    var text := m.sender + "\n" + ts + "\n" + b64;
    ContentFieldHasNoNewline(m.content);
    IsoInstant.FormatChars(m.timestamp);
    SerialisedCount(m.sender, ts, b64);
    text
  }

  /** The line-break count and the sender prefix behind `Serialise`'s
      contract. */
  lemma SerialisedCount(sender: string, ts: string, b64: string)
    requires '\n' !in ts && '\n' !in b64
    ensures var text := sender + "\n" + ts + "\n" + b64;
            && |sender| < |text| && text[..|sender|] == sender && text[|sender|] == '\n'
            && ('\n' !in sender ==> multiset(text)['\n'] == 2)
  {
    var text := sender + "\n" + ts + "\n" + b64;
    assert text == sender + ("\n" + ts + "\n" + b64);
    Strings.CountFields([sender, ts, b64], '\n');
    assert multiset(ts)['\n'] == 0 && multiset(b64)['\n'] == 0;
    if '\n' !in sender {
      assert multiset(sender)['\n'] == 0;
    }
  }

  /** `toBytes`: the serialised text as UTF-8; decoding the bytes gives the
      text back. */
  function ToBytes(m: ChatMessage): (data: seq<byte>)
    ensures Utf8.Decode(data) == Serialise(m)
  {
    Utf8.DecodeEncode(Serialise(m));
    Utf8.Encode(Serialise(m))
  }

  /** `fromBytes`: decode the bytes as UTF-8, split the text at the first two
      line breaks, parse the timestamp, Base64-decode and UTF-8-decode the
      content. A message it yields has a sender without a line break. */
  function FromBytes(data: seq<byte>): (r: Result<ChatMessage, Error>)
    ensures r.Success? ==> '\n' !in r.value.sender
  {
    var parts := Strings.Split(Utf8.Decode(data), '\n', 3);
    if |parts| != 3 then Failure(InvalidEncoding(NoCause))
    else
      match IsoInstant.Parse(parts[1])
      case None => Failure(InvalidEncoding(DateTimeParse))
      case Some(timestamp) =>
        match Base64.Decode(parts[2])
        case None => Failure(InvalidEncoding(IllegalBase64))
        case Some(bytes) => Success(ChatMessage(parts[0], timestamp, Utf8.Decode(bytes)))
  }

  /** `toString`: `[timestamp] sender: content`. The timestamp can be read
      back from the text between the `[` and the first `]`, and what follows
      that `]` is the sender and the content. */
  function ToString(m: ChatMessage): (r: string)
    ensures |r| > 0 && r[0] == '[' && ']' in r
    ensures IsoInstant.Parse(r[1..Strings.IndexOf(r, ']')]) == Some(m.timestamp)
    ensures r[Strings.IndexOf(r, ']')..] == "] " + m.sender + ": " + m.content
  {
    var ts := IsoInstant.Format(m.timestamp);
    IsoInstant.FormatChars(m.timestamp);
    IsoInstant.ParseFormat(m.timestamp);
    Bracketed(ts, m.sender, m.content);
    "[" + ts + "] " + m.sender + ": " + m.content
  }

  /** The layout behind `ToString`'s contract, for any field texts. */
  lemma Bracketed(ts: string, sender: string, content: string)
    requires ']' !in ts
    ensures var r := "[" + ts + "] " + sender + ": " + content;
            && ']' in r && Strings.IndexOf(r, ']') == |ts| + 1 && r[1..|ts| + 1] == ts
            && r[|ts| + 1..] == "] " + sender + ": " + content
  {
    var r := "[" + ts + "] " + sender + ": " + content;
    assert r == ("[" + ts) + "]" + (" " + sender + ": " + content);
    Strings.IndexOfAfterField("[" + ts, " " + sender + ": " + content, ']');
  }

  /** The Base64 field holds no line break, whatever the content holds. */
  lemma ContentFieldHasNoNewline(content: string)
    ensures '\n' !in Base64.Encode(Utf8.Encode(content))
  {
    var b64 := Base64.Encode(Utf8.Encode(content));
    assert forall k :: 0 <= k < |b64| ==> b64[k] != '\n';
  }

  /** Round trip: a message whose sender holds no line break comes back from
      its bytes unchanged; its content may hold line breaks or be empty. */
  lemma RoundTrip(m: ChatMessage)
    requires '\n' !in m.sender
    ensures FromBytes(ToBytes(m)) == Success(m)
  {
    var ts := IsoInstant.Format(m.timestamp);
    var b64 := Base64.Encode(Utf8.Encode(m.content));
    IsoInstant.FormatChars(m.timestamp);
    Strings.SplitFields(m.sender, ts, b64, '\n');
    IsoInstant.ParseFormat(m.timestamp);
    Base64.DecodeEncode(Utf8.Encode(m.content));
    Utf8.DecodeEncode(m.content);
  }

  /** Empty content gives an empty third field after the second line break,
      which the limit-3 split keeps and which decodes to empty content. */
  lemma EmptyContent(m: ChatMessage)
    requires m.content == "" && '\n' !in m.sender
    ensures Serialise(m) == m.sender + "\n" + IsoInstant.Format(m.timestamp) + "\n"
    ensures Strings.Split(Serialise(m), '\n', 3) == [m.sender, IsoInstant.Format(m.timestamp), ""]
    ensures FromBytes(ToBytes(m)) == Success(m)
  {
    var ts := IsoInstant.Format(m.timestamp);
    assert Base64.Encode(Utf8.Encode("")) == "";
    IsoInstant.FormatChars(m.timestamp);
    Strings.SplitFields(m.sender, ts, "", '\n');
    assert m.sender + "\n" + ts + "\n" + "" == m.sender + "\n" + ts + "\n";
    RoundTrip(m);
  }

  /** The text before the first line break is taken as the sender, so a
      sender holding one never comes back: the extra line break lands in the
      Base64 field, which then fails to decode (if the timestamp has not
      failed first). */
  lemma SenderWithNewlineFails(m: ChatMessage)
    requires '\n' in m.sender
    ensures FromBytes(ToBytes(m)).Failure?
  {
    var ts := IsoInstant.Format(m.timestamp);
    var b64 := Base64.Encode(Utf8.Encode(m.content));
    Strings.CountFields([m.sender, ts, b64], '\n');
    assert multiset(m.sender)['\n'] >= 1;
    assert multiset(Utf8.Decode(ToBytes(m)))['\n'] >= 3;
    ThreeNewlinesFail(ToBytes(m));
  }

  /** Text with three line breaks or more is always rejected: the third
      field then holds a line break, which is not Base64. */
  lemma ThreeNewlinesFail(data: seq<byte>)
    requires multiset(Utf8.Decode(data))['\n'] >= 3
    ensures FromBytes(data).Failure?
  {
    var text := Utf8.Decode(data);
    Strings.SplitKeepsRest(text, '\n');
    var parts := Strings.Split(text, '\n', 3);
    Base64.DecodeRejectsNewline(parts[2]);
  }

  /** Text with fewer than two line breaks is rejected as having too few
      fields, and only such text is. */
  lemma TooFewFields(data: seq<byte>)
    ensures FromBytes(data) == Failure(InvalidEncoding(NoCause)) <==>
            multiset(Utf8.Decode(data))['\n'] < 2
  {
    var parts := Strings.Split(Utf8.Decode(data), '\n', 3);
    Strings.SplitThreeIff(Utf8.Decode(data), '\n');
    if |parts| == 3 {
      match IsoInstant.Parse(parts[1])
      case None =>
        assert FromBytes(data) == Failure(InvalidEncoding(DateTimeParse));
      case Some(t) =>
        match Base64.Decode(parts[2])
        case None =>
          assert FromBytes(data) == Failure(InvalidEncoding(IllegalBase64));
        case Some(bytes) =>
          assert FromBytes(data).Success?;
    }
  }

  /** A second field that is not an ISO-8601 instant is rejected. */
  lemma BadTimestamp(data: seq<byte>, sender: string, stamp: string, rest: string)
    requires Utf8.Decode(data) == sender + "\n" + stamp + "\n" + rest
    requires '\n' !in sender && '\n' !in stamp
    requires IsoInstant.Parse(stamp).None?
    ensures FromBytes(data) == Failure(InvalidEncoding(DateTimeParse))
  {
    Strings.SplitFields(sender, stamp, rest, '\n');
  }

  /** A valid timestamp followed by a third field that is not Base64 is
      rejected. */
  lemma BadContent(data: seq<byte>, sender: string, stamp: string, rest: string)
    requires Utf8.Decode(data) == sender + "\n" + stamp + "\n" + rest
    requires '\n' !in sender && '\n' !in stamp
    requires IsoInstant.Parse(stamp).Some? && Base64.Decode(rest).None?
    ensures FromBytes(data) == Failure(InvalidEncoding(IllegalBase64))
  {
    Strings.SplitFields(sender, stamp, rest, '\n');
  }

  /** A decoded message is read off the text: the sender is everything before
      the first line break, and the timestamp and content come from the two
      fields after it. */
  lemma FromBytesFields(data: seq<byte>)
    requires FromBytes(data).Success?
    ensures var m := FromBytes(data).value;
            var text := Utf8.Decode(data);
            var parts := Strings.Split(text, '\n', 3);
            && |parts| == 3
            && text == m.sender + "\n" + parts[1] + "\n" + parts[2]
            && IsoInstant.Parse(parts[1]) == Some(m.timestamp)
            && Base64.Decode(parts[2]).Some?
            && m.content == Utf8.Decode(Base64.Decode(parts[2]).value)
  {
    var parts := Strings.Split(Utf8.Decode(data), '\n', 3);
    assert |parts| == 3;
    Strings.CountFields(parts, '\n');
    var t := IsoInstant.Parse(parts[1]).value;
    var bytes := Base64.Decode(parts[2]).value;
    assert FromBytes(data).value == ChatMessage(parts[0], t, Utf8.Decode(bytes));
  }
}
