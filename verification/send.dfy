/** The pure steps of `SendMail.send`: normalising the recipients, building
    the `To` header, naming attachments, and refusing the whole message when
    one attachment cannot be read. */
module Send {
  import opened Wrappers
  import opened ByteStrings
  import opened Sequences
  import Config

  /** The `to` argument: one address, or a list of them. */
  datatype Recipients = Address(address: string) | AddressList(addresses: seq<string>)

  /** The recipient list of `send`: a list argument is used as it is, and
      anything else is taken as one address and wrapped in a list. */
  function Normalise(to: Recipients): (r: seq<string>)
    ensures to.Address? ==> |r| == 1
    ensures to.AddressList? ==> |r| == |to.addresses|
    ensures to.AddressList? ==> forall i :: 0 <= i < |r| ==> r[i] == to.addresses[i]
    ensures forall a :: a in r <==> (if to.Address? then a == to.address else a in to.addresses)
  {
    match to
    case Address(a) => [a]
    case AddressList(addresses) => addresses
  }

  /** `email.Utils.COMMASPACE`. */
  const CommaSpace: string := ", "

  /** The `To` header: the recipients joined by ", ". It opens with the
      first recipient and is empty when there are none; `ToHeaderPlaces`
      locates every recipient in it. */
  function ToHeader(to: Recipients): (r: string)
    ensures |Normalise(to)| >= 1 ==> Normalise(to)[0] <= r
    ensures |Normalise(to)| == 0 ==> r == []
  {
    Join(Normalise(to), CommaSpace)
  }

  /** A single address and the one-element list holding it are sent to the
      same recipients under the same `To` header, which is the address itself. */
  lemma SingleAddressAsList(a: string)
    ensures Normalise(Address(a)) == Normalise(AddressList([a])) == [a]
    ensures ToHeader(Address(a)) == ToHeader(AddressList([a])) == a
  {
  }

  /** Recipient `i` appears in the `To` header after the `i` earlier
      recipients, each followed by ", ", and every recipient but the last is
      followed by ", " itself. */
  lemma ToHeaderPlaces(to: Recipients, i: nat)
    requires i < |Normalise(to)|
    ensures var addresses := Normalise(to);
            var start := TotalLength(addresses[..i]) + 2 * i;
            start + |addresses[i]| <= |ToHeader(to)|
            && ToHeader(to)[start..start + |addresses[i]|] == addresses[i]
            && (i + 1 < |addresses| ==>
                  start + |addresses[i]| + 2 <= |ToHeader(to)|
                  && ToHeader(to)[start + |addresses[i]|..start + |addresses[i]| + 2] == CommaSpace)
  {
    var addresses := Normalise(to);
    JoinPart(addresses, CommaSpace, i);
    PartOffsetValue(addresses, CommaSpace, i);
  }

  /** The `To` header of a list is as long as its addresses plus one ", "
      between each neighbouring pair. */
  lemma {:induction false} ToHeaderLength(addresses: seq<string>)
    ensures |ToHeader(AddressList(addresses))|
         == TotalLength(addresses) + (if |addresses| == 0 then 0 else 2 * (|addresses| - 1))
    decreases |addresses|
  {
    if |addresses| > 1 {
      ToHeaderLength(addresses[1..]);
    }
  }

  /** Where the base name of `path` starts: just after its last "/", or 0
      when it has none (`p.rfind('/') + 1`). */
  function NameStart(path: string): (k: nat)
    ensures k <= |path|
    ensures k > 0 ==> path[k - 1] == '/'
    ensures forall i :: k <= i < |path| ==> path[i] != '/'
    decreases |path|
  {
    if |path| == 0 || path[|path| - 1] == '/' then |path| else NameStart(path[..|path| - 1])
  }

  /** `os.path.basename(path)`: what follows the last "/", or the whole path
      when it has none. */
  function BaseName(path: string): (r: string)
    ensures '/' !in r
    ensures |r| <= |path|
    ensures forall i :: 0 <= i < |r| ==> r[i] == path[|path| - |r| + i]
    ensures |r| < |path| ==> path[|path| - |r| - 1] == '/'
  {
    path[NameStart(path)..]
  }

  /** A path without "/" is its own base name. */
  lemma BaseNameOfPlainName(path: string)
    requires '/' !in path
    ensures BaseName(path) == path
  {
  }

  /** One attachment part: its `filename` parameter and its payload. */
  datatype Attachment = Attachment(filename: string, payload: Bytes)

  /** The message as assembled before transmission (the `Date` header, MIME
      framing and payload encoding are not modelled). */
  datatype Message = Message(
    from: string,
    to: string,
    subject: string,
    body: string,
    attachments: seq<Attachment>)

  /** What `server.sendmail` is given: sender, recipient list and message. */
  datatype Outgoing = Outgoing(sender: string, recipients: seq<string>, message: Message)

  datatype SendError = UnreadableAttachment(path: string)

  /** The position of the first failed read, or the number of reads when
      none failed. */
  function FirstUnreadable(contents: seq<Option<Bytes>>): (k: nat)
    ensures k <= |contents|
    ensures forall j :: 0 <= j < k ==> contents[j].Some?
    ensures k < |contents| ==> contents[k].None?
  {
    if |contents| == 0 || contents[0].None? then 0 else 1 + FirstUnreadable(contents[1..])
  }

  /** The reads of the attachment loop. `contents[i]` is the result of
      reading `paths[i]`, `None` when opening or reading it raised. The first
      failure ends the loop with an error naming that path; otherwise every
      payload is kept, in order. */
  function ReadAll(paths: seq<string>, contents: seq<Option<Bytes>>)
    : (r: Result<seq<Bytes>, SendError>)
    requires |paths| == |contents|
    ensures r.Ok? <==> FirstUnreadable(contents) == |contents|
    ensures r.Ok? ==> |r.value| == |contents|
    ensures r.Ok? ==> forall i :: 0 <= i < |contents| ==> contents[i] == Some(r.value[i])
    ensures r.Err? ==> r.error == UnreadableAttachment(paths[FirstUnreadable(contents)])
    decreases |paths|
  {
    if |paths| == 0 then Ok([])
    else
      match contents[0]
      case None => Err(UnreadableAttachment(paths[0]))
      case Some(payload) =>
        match ReadAll(paths[1..], contents[1..])
        case Err(e) => Err(e)
        case Ok(rest) =>
          var payloads := [payload] + rest;
          assert forall i :: 1 <= i < |contents| ==> contents[i] == contents[1..][i - 1];
          Ok(payloads)
  }

  /** The attachment loop: every path becomes one part named by its base
      name, or the first unreadable path aborts the whole message. */
  function Attach(paths: seq<string>, contents: seq<Option<Bytes>>)
    : (r: Result<seq<Attachment>, SendError>)
    requires |paths| == |contents|
    ensures r.Ok? <==> forall i :: 0 <= i < |contents| ==> contents[i].Some?
    ensures r.Ok? ==> |r.value| == |paths|
    ensures r.Ok? ==> forall i :: 0 <= i < |paths| ==>
              r.value[i] == Attachment(BaseName(paths[i]), contents[i].value)
    ensures r.Err? ==> r.error == UnreadableAttachment(paths[FirstUnreadable(contents)])
  {
    match ReadAll(paths, contents)
    case Err(e) => Err(e)
    case Ok(payloads) =>
      Ok(seq(|paths|, i requires 0 <= i < |paths| => Attachment(BaseName(paths[i]), payloads[i])))
  }

  /** `send` up to the SMTP session: the message is built only when every
      attachment was read, so no message exists to transmit otherwise. */
  function Compose(credentials: Config.Credentials, to: Recipients, subject: string,
                   body: string, paths: seq<string>, contents: seq<Option<Bytes>>)
    : (r: Result<Outgoing, SendError>)
    requires |paths| == |contents|
    ensures r.Ok? <==> forall i :: 0 <= i < |contents| ==> contents[i].Some?
    ensures r.Ok? ==> r.value.sender == r.value.message.from == credentials.user
    ensures r.Ok? ==> r.value.recipients == Normalise(to)
    ensures r.Ok? ==> r.value.message.to == Join(r.value.recipients, CommaSpace)
    ensures r.Ok? ==> |r.value.message.attachments| == |paths|
    ensures r.Ok? ==> forall i :: 0 <= i < |paths| ==>
              '/' !in r.value.message.attachments[i].filename
    ensures r.Ok? ==> Attach(paths, contents) == Ok(r.value.message.attachments)
    ensures r.Ok? ==> r.value.message.subject == subject && r.value.message.body == body
    ensures r.Err? ==> r.error == UnreadableAttachment(paths[FirstUnreadable(contents)])
  {
    match Attach(paths, contents)
    case Err(e) => Err(e)
    case Ok(parts) =>
      var message := Message(credentials.user, ToHeader(to), subject, body, parts);
      Ok(Outgoing(credentials.user, Normalise(to), message))
  }
}
