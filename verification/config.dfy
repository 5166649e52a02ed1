/** The credential store of `SendMail`: `writeConfig` turns the five
    credential fields into one Base64 line, and `readConfig` reads them back. */
module Config {
  import opened Wrappers
  import opened ByteStrings
  import opened Sequences
  import Decimal
  import Base64

  /** The five fields `SendMail` keeps for the SMTP session. */
  datatype Credentials = Credentials(
    user: Bytes,
    pass: Bytes,
    smtpServer: Bytes,
    smtpPort: int,
    ssl: bool)

  /** The exceptions `readConfig` lets escape (only `IOError` is caught). */
  datatype ReadError =
    | BadEncoding               // TypeError from b64decode, which wraps binascii.Error
    | MissingField(index: nat)  // IndexError: the line has no part at `index`
    | BadPort(text: Bytes)      // ValueError: the fourth part is not an integer

  const Separator: ByteChar := ':'

  /** `str(b)` for a boolean: "True" exactly for true, and never the field
      delimiter. */
  function BoolToString(b: bool): (r: Bytes)
    ensures r == "True" <==> b
    ensures Separator !in r
  {
    if b then "True" else "False"
  }

  /** The field delimiter appears in none of the three free-text fields. */
  predicate ColonFree(c: Credentials)
  {
    Separator !in c.user && Separator !in c.pass && Separator !in c.smtpServer
  }

  /** The tuple `writeConfig` builds before joining, in its fixed order. */
  function Fields(c: Credentials): seq<Bytes>
  {
    [c.user, c.pass, c.smtpServer, Decimal.IntToString(c.smtpPort), BoolToString(c.ssl)]
  }

  /** The port and flag texts read back as the port and the flag. */
  lemma FieldsReadBack(c: Credentials)
    ensures Decimal.ParseInt(Fields(c)[3]) == Some(c.smtpPort)
    ensures Fields(c)[4] == "True" <==> c.ssl
  {
    Decimal.ParseIntOfIntToString(c.smtpPort);
  }

  /** The five fields joined by the delimiter, the line before encoding. It
      holds exactly four delimiters besides those inside the three free-text
      fields, which is why colon-free credentials split back into five parts. */
  function ConfigLine(c: Credentials): (r: Bytes)
    ensures Count(r, Separator)
         == 4 + Count(c.user, Separator) + Count(c.pass, Separator) + Count(c.smtpServer, Separator)
  {
    var f := Fields(c);
    CountJoin(f, Separator);
    CountZero(f[3], Separator);
    CountZero(f[4], Separator);
    assert f[4..][1..] == [];
    assert CountAll(f[4..], Separator) == 0;
    assert f[3..][1..] == f[4..];
    assert CountAll(f[3..], Separator) == 0;
    assert f[2..][1..] == f[3..];
    assert CountAll(f[2..], Separator) == Count(f[2], Separator);
    assert f[1..][1..] == f[2..];
    assert CountAll(f[1..], Separator) == Count(f[1], Separator) + Count(f[2], Separator);
    assert CountAll(f, Separator) == Count(f[0], Separator) + Count(f[1], Separator) + Count(f[2], Separator);
    Join(f, [Separator])
  }

  /** `writeConfig`: the content written to the configuration file. */
  function WriteConfig(c: Credentials): (content: Bytes)
    ensures Base64.Decode(content) == Some(ConfigLine(c))
    ensures forall i :: 0 <= i < |content| ==> Base64.IsEncodingChar(content[i])
  {
    Base64.DecodeEncode(ConfigLine(c));
    Base64.Encode(ConfigLine(c))
  }

  /** Assignments of `readConfig` after the split, in source order: indices
      0 to 2 are copied, index 3 goes through `int` before index 4 is read,
      and the TLS flag is set only by the exact text "True". */
  function ParseFields(parts: seq<Bytes>): (r: Result<Credentials, ReadError>)
    ensures r.Ok? <==> |parts| >= 5 && Decimal.ParseInt(parts[3]).Some?
    ensures r.Ok? ==> r.value == Credentials(parts[0], parts[1], parts[2],
                                             Decimal.ParseInt(parts[3]).value, parts[4] == "True")
    ensures |parts| < 4 ==> r == Err(MissingField(|parts|))
    ensures |parts| >= 4 && Decimal.ParseInt(parts[3]).None? ==> r == Err(BadPort(parts[3]))
  {
    if |parts| < 4 then Err(MissingField(|parts|))
    else
      match Decimal.ParseInt(parts[3])
      case None => Err(BadPort(parts[3]))
      case Some(port) =>
        if |parts| < 5 then Err(MissingField(4))
        else Ok(Credentials(parts[0], parts[1], parts[2], port, parts[4] == "True"))
  }

  /** `readConfig`: strip the first line of the file, Base64-decode it, split
      it on ':' and read the fields. */
  function ReadConfig(content: Bytes): (r: Result<Credentials, ReadError>)
    ensures r.Ok? ==> ColonFree(r.value)
    ensures Base64.Decode(Strip(FirstLine(content))).None? ==> r == Err(BadEncoding)
  {
    match Base64.Decode(Strip(FirstLine(content)))
    case None => Err(BadEncoding)
    case Some(line) => ParseFields(Split(line, Separator))
  }

  /** Before encoding, the line splits into exactly the five fields, in the
      order user, password, server, port, TLS flag. */
  lemma ConfigLineFields(c: Credentials)
    requires ColonFree(c)
    ensures Split(ConfigLine(c), Separator) == Fields(c)
  {
    var f := Fields(c);
    assert ':' !in Decimal.IntToString(c.smtpPort);
    assert forall i :: 0 <= i < |f| ==> Separator !in f[i];
    SplitJoin(f, Separator);
  }

  /** The file content is a single line that stripping does not change, so
      `readConfig` parses exactly the line `writeConfig` joined. */
  lemma ReadBackLine(c: Credentials)
    ensures Strip(FirstLine(WriteConfig(c))) == WriteConfig(c)
    ensures ReadConfig(WriteConfig(c)) == ParseFields(Split(ConfigLine(c), Separator))
  {
    var content := WriteConfig(c);
    assert '\n' !in content;
    Base64.StripEncode(ConfigLine(c));
  }

  /** Round trip: reading what `writeConfig` wrote recovers all five fields,
      provided no free-text field contains ':'. */
  lemma ReadWriteConfig(c: Credentials)
    requires ColonFree(c)
    ensures ReadConfig(WriteConfig(c)) == Ok(c)
  {
    ReadBackLine(c);
    ConfigLineFields(c);
    FieldsReadBack(c);
  }

  /** The round trip succeeds exactly when no free-text field contains ':':
      a field holding ':' never comes back as itself, because no part of a
      split contains the separator. */
  lemma ReadWriteConfigExactly(c: Credentials)
    ensures ReadConfig(WriteConfig(c)) == Ok(c) <==> ColonFree(c)
  {
    if ColonFree(c) {
      ReadWriteConfig(c);
    } else {
      ReadBackLine(c);
      var parts := Split(ConfigLine(c), Separator);
      var r := ReadConfig(WriteConfig(c));
      assert r == ParseFields(parts);
      if r.Ok? {
        assert Separator !in parts[0] && Separator !in parts[1] && Separator !in parts[2];
      }
    }
  }

  /** Text after a padded Base64 group is ignored: when the line ends in
      padding (its length is not a multiple of three), anything without
      whitespace appended to the written content changes nothing, and the
      line is read as if it stood alone. */
  lemma ReadConfigStopsAtPad(line: Bytes, trailer: Bytes)
    requires |line| % 3 != 0
    requires NoSpace(trailer)
    ensures ReadConfig(Base64.Encode(line) + trailer) == ParseFields(Split(line, Separator))
  {
    var e := Base64.Encode(line);
    assert NoSpace(e) by {
      forall i | 0 <= i < |e|
        ensures !IsSpace(e[i])
      {
        assert Base64.IsEncodingChar(e[i]);
      }
    }
    NoSpaceConcat(e, trailer);
    ReadLineWithoutSpace(e + trailer);
    Base64.DecodeStopsAtPad(line, trailer);
  }

  /** Parts after index 4 are never read: a line with extra separators is
      parsed from its first five parts only. */
  lemma ExtraPartsIgnored(parts: seq<Bytes>)
    requires |parts| > 5
    ensures ParseFields(parts) == ParseFields(parts[..5])
  {
  }

  /** A decoded line with fewer than five parts never yields credentials; the
      error is the missing index, unless a fourth part exists and is not a
      number, since `int(config[3])` runs before `config[4]` is read. */
  lemma TooFewParts(parts: seq<Bytes>)
    requires |parts| < 5
    ensures ParseFields(parts).Err?
    ensures |parts| == 4 && Decimal.ParseInt(parts[3]).Some? ==>
              ParseFields(parts) == Err(MissingField(4))
  {
  }

  /** A ':' inside the password shifts every later field silently: the text
      after the ':' is read as the server, the server is read as the port,
      and the port text is read as the TLS flag, which is then false. */
  lemma ShiftedFields(c: Credentials, p: Bytes, q: Bytes, port: int)
    requires c.pass == p + [Separator] + q
    requires Separator !in c.user && Separator !in p && Separator !in q
    requires c.smtpServer == Decimal.IntToString(port)
    ensures ReadConfig(WriteConfig(c)) == Ok(Credentials(c.user, p, q, port, false))
  {
    var parts := [c.user, p, q, c.smtpServer, Decimal.IntToString(c.smtpPort), BoolToString(c.ssl)];
    ShiftedLine(c, p, q, parts);
    ShiftedPartsSeparatorFree(parts, c.smtpPort, c.ssl);
    ShiftedParts(parts, c.user, p, q, port, c.smtpPort);
    ReadConfigOfParts(c, parts);
  }

  /** The six parts of a shifted line parse as user, first half of the
      password, second half as server, the server's number as port, and TLS
      off. */
  lemma ShiftedParts(parts: seq<Bytes>, user: Bytes, p: Bytes, q: Bytes, port: int, portText: int)
    requires |parts| == 6 && parts[..3] == [user, p, q]
    requires parts[3] == Decimal.IntToString(port) && parts[4] == Decimal.IntToString(portText)
    ensures ParseFields(parts) == Ok(Credentials(user, p, q, port, false))
  {
    Decimal.ParseIntOfIntToString(port);
    PortTextIsNotTrue(portText);
    assert parts[0] == user && parts[1] == p && parts[2] == q by {
      assert parts[..3][0] == parts[0] && parts[..3][1] == parts[1] && parts[..3][2] == parts[2];
    }
  }

  /** The six parts of a shifted line are all free of ':'. */
  lemma ShiftedPartsSeparatorFree(parts: seq<Bytes>, port: int, ssl: bool)
    requires |parts| == 6
    requires forall i :: 0 <= i < 4 ==> Separator !in parts[i]
    requires parts[4] == Decimal.IntToString(port) && parts[5] == BoolToString(ssl)
    ensures forall i :: 0 <= i < |parts| ==> Separator !in parts[i]
  {
  }

  /** The text of a port is never "True". */
  lemma PortTextIsNotTrue(n: int)
    ensures Decimal.IntToString(n) != "True"
  {
    var t := Decimal.IntToString(n);
    assert t[0] == '-' || Decimal.IsDigit(t[0]);
  }

  /** Whatever parts the joined line is made of, `readConfig` parses them. */
  lemma ReadConfigOfParts(c: Credentials, parts: seq<Bytes>)
    requires |parts| >= 1 && forall i :: 0 <= i < |parts| ==> Separator !in parts[i]
    requires ConfigLine(c) == Join(parts, [Separator])
    ensures ReadConfig(WriteConfig(c)) == ParseFields(parts)
  {
    ReadBackLine(c);
    SplitJoin(parts, Separator);
  }

  /** With the password cut at its ':', the joined line is the join of six
      parts: user, the two halves of the password, server, port and flag. */
  lemma ShiftedLine(c: Credentials, p: Bytes, q: Bytes, parts: seq<Bytes>)
    requires c.pass == p + [Separator] + q
    requires parts == [c.user, p, q, c.smtpServer, Decimal.IntToString(c.smtpPort), BoolToString(c.ssl)]
    ensures ConfigLine(c) == Join(parts, [Separator])
  {
    var f := Fields(c);
    var sep: Bytes := [Separator];
    var rest := Join(f[2..], sep);
    assert f[2..] == parts[3..];
    assert Join(f, sep) == c.user + sep + Join(f[1..], sep);
    assert Join(f[1..], sep) == c.pass + sep + rest;
    assert Join(parts, sep) == c.user + sep + Join(parts[1..], sep);
    assert Join(parts[1..], sep) == p + sep + Join(parts[2..], sep);
    assert Join(parts[2..], sep) == q + sep + rest;
  }

  /** `str(True)` reads back as true and `str(False)` as false; any fifth
      field other than exactly "True" reads as false. */
  lemma SslFlag(parts: seq<Bytes>)
    ensures ParseFields(parts).Ok? ==> (ParseFields(parts).value.ssl <==> parts[4] == "True")
    ensures ParseFields(parts).Ok? && parts[4] == BoolToString(true) ==> ParseFields(parts).value.ssl
    ensures ParseFields(parts).Ok? && parts[4] == BoolToString(false) ==> !ParseFields(parts).value.ssl
  {
  }
}
