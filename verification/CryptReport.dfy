/** The layout of a stored report: two encrypted streams, each behind a heading and before a zero terminator. */
module CryptReport {
  import opened Bits
  import opened CryptFrames
  import opened Results

  const FILE_HEADER: seq<byte> := Ascii("EncryptedReport\0Meta")
  const DATA_HEADER: seq<byte> := Ascii("Data")
  const FOOTER: seq<byte> := Ascii("EOF\0")
  const TERMINATOR: seq<byte> := [0, 0, 0, 0]

  function Ascii(s: string): (r: seq<byte>)
    requires forall i :: 0 <= i < |s| ==> s[i] < 128 as char
    ensures |r| == |s|
  {
    seq(|s|, i requires 0 <= i < |s| => s[i] as int)
  }

  function GenerateReport(seal: Seal, metadata: seq<byte>, data: seq<byte>): seq<byte> {
    FILE_HEADER
    + (Encrypt(seal, 0, metadata) + (TERMINATOR + (DATA_HEADER
    + (Encrypt(seal, Boxes(|metadata|), data) + (TERMINATOR + FOOTER)))))
  }

  function CalculateReportObjectSize(metadataSize: nat, dataSize: nat): nat {
    20 + Size(metadataSize) + 8 + Size(dataSize) + 8
  }

  /** The headings and the footer, character by character. */
  lemma Headings()
    ensures |FILE_HEADER| == 20 && forall i :: 0 <= i < 20 ==> FILE_HEADER[i] as char == "EncryptedReport\0Meta"[i]
    ensures |DATA_HEADER| == 4 && forall i :: 0 <= i < 4 ==> DATA_HEADER[i] as char == "Data"[i]
    ensures |FOOTER| == 4 && forall i :: 0 <= i < 4 ==> FOOTER[i] as char == "EOF\0"[i]
    ensures TERMINATOR == PutUint32(0)
  {
  }

  /** The size given to the object store is the length of what is stored. */
  lemma ReportSize(seal: Seal, open: Open, metadata: seq<byte>, data: seq<byte>)
    requires Opens(open, seal)
    ensures |GenerateReport(seal, metadata, data)| == CalculateReportObjectSize(|metadata|, |data|)
  {
    EncryptLength(seal, open, 0, metadata);
    EncryptLength(seal, open, Boxes(|metadata|), data);
  }

  datatype Report = Report(metadata: seq<byte>, data: seq<byte>, dataEnd: End)

  /** The report reader: both headings and the footer have to be in their places. */
  function ReadReport(open: Open, file: seq<byte>): Option<Report> {
    if !(FILE_HEADER <= file) then None
    else
      var first := Decrypt(open, file[|FILE_HEADER|..], Eof);
      if !(DATA_HEADER <= first.rest) then None
      else
        var second := Decrypt(open, first.rest[|DATA_HEADER|..], Eof);
        if !(FOOTER <= second.rest) then None
        else Some(Report(first.plain, second.plain, second.end))
  }

  lemma DropPrefix(a: seq<byte>, b: seq<byte>)
    ensures a <= a + b && (a + b)[|a|..] == b
  {
  }

  /** A stored report is read back, whatever the metadata and the data are. */
  lemma ReportRoundTrip(seal: Seal, open: Open, metadata: seq<byte>, data: seq<byte>)
    requires Opens(open, seal)
    ensures ReadReport(open, GenerateReport(seal, metadata, data)) == Some(Report(metadata, data, Eof))
  {
    var i := Boxes(|metadata|);
    var body := Encrypt(seal, i, data) + (TERMINATOR + FOOTER);
    var tail := DATA_HEADER + body;
    DropPrefix(FILE_HEADER, Encrypt(seal, 0, metadata) + (TERMINATOR + tail));
    RoundTrip(seal, open, 0, metadata, tail, Eof);
    DropPrefix(DATA_HEADER, body);
    RoundTrip(seal, open, i, data, FOOTER, Eof);
    hide Decrypt, Encrypt, Opens;
  }

  /** What is left behind a stream with its terminator, if the file has been cut off. */
  lemma CutTerminated(seal: Seal, open: Open, i: nat, plain: seq<byte>, tail: seq<byte>, cut: nat)
    requires Opens(open, seal) && cut <= |Encrypt(seal, i, plain) + (TERMINATOR + tail)|
    ensures var n := |Encrypt(seal, i, plain)| + 4;
      Decrypt(open, (Encrypt(seal, i, plain) + (TERMINATOR + tail))[..cut], Eof).rest
        == if cut < n then [] else tail[..cut - n]
  {
    hide Encrypt, Opens, Decrypt;
    var e := Encrypt(seal, i, plain);
    if cut <= |e| {
      CutIsRead(seal, open, i, plain, cut);
      assert (e + (TERMINATOR + tail))[..cut] == e[..cut];
    } else if cut < |e| + 4 {
      var part := TERMINATOR[..cut - |e|];
      DecryptEncrypt(seal, open, i, plain, part, Eof);
      assert (e + (TERMINATOR + tail))[..cut] == e + part;
      ShortPrefix(open, part);
    } else {
      var rest := tail[..cut - |e| - 4];
      RoundTrip(seal, open, i, plain, rest, Eof);
      assert (e + (TERMINATOR + tail))[..cut] == e + (TERMINATOR + rest);
    }
  }

  lemma ShortPrefix(open: Open, part: seq<byte>)
    requires |part| < 4
    ensures Decrypt(open, part, Eof).rest == []
  {
  }

  /** A report that has been cut off anywhere is refused. */
  lemma CutReport(seal: Seal, open: Open, metadata: seq<byte>, data: seq<byte>, cut: nat)
    requires Opens(open, seal) && cut < |GenerateReport(seal, metadata, data)|
    ensures ReadReport(open, GenerateReport(seal, metadata, data)[..cut]) == None
  {
    hide Encrypt, Opens, Decrypt;
    var e := Encrypt(seal, Boxes(|metadata|), data);
    var tail := DATA_HEADER + (e + (TERMINATOR + FOOTER));
    var first := Encrypt(seal, 0, metadata) + (TERMINATOR + tail);
    assert GenerateReport(seal, metadata, data) == FILE_HEADER + first;
    if cut >= |FILE_HEADER| {
      var cut1 := cut - |FILE_HEADER|;
      assert (FILE_HEADER + first)[..cut] == FILE_HEADER + first[..cut1];
      DropPrefix(FILE_HEADER, first[..cut1]);
      CutTerminated(seal, open, 0, metadata, tail, cut1);
      var left := Decrypt(open, first[..cut1], Eof).rest;
      if DATA_HEADER <= left {
        var cut2 := |left| - |DATA_HEADER|;
        var second := e + (TERMINATOR + FOOTER);
        assert left == DATA_HEADER + second[..cut2];
        DropPrefix(DATA_HEADER, second[..cut2]);
        CutTerminated(seal, open, Boxes(|metadata|), data, FOOTER, cut2);
        assert !(FOOTER <= Decrypt(open, second[..cut2], Eof).rest);
      }
    }
  }

  /** With data the client has encrypted before, decrypting the stored data again gives the client's bytes. */
  lemma NestedReport(seal: Seal, open: Open, inner: Seal, openInner: Open, metadata: seq<byte>, plain: seq<byte>)
    requires Opens(open, seal) && Opens(openInner, inner)
    ensures var r := ReadReport(open, GenerateReport(seal, metadata, Encrypt(inner, 0, plain)));
      r.Some? && r.value.metadata == metadata
        && Decrypt(openInner, r.value.data, r.value.dataEnd) == Stream(plain, Eof, [], 0)
  {
    ReportRoundTrip(seal, open, metadata, Encrypt(inner, 0, plain));
    RoundTrip(inner, openInner, 0, plain, [], Eof);
  }
}
