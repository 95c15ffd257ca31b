/** The data-shaping half of `Mailer.php`: credential validation, the `init`
    checks, and the request body `sendMessage` posts to the provider. The
    post itself, the client construction and the stored response belong to
    the vendor library and are not modelled. */
module Mailer {
  import opened Results
  import opened Php
  import opened Messages

  datatype Field = Apikey | Secret

  /** The `InvalidConfigException`s the mailer raises, by cause. */
  datatype ConfigError =
    | NotAString(field: Field, given: string)
    | EmptyValue(field: Field)
    | Unset(field: Field)
    | NotAnArray
    | UnsupportedEvent(event: string)
    | NotAUrl(event: string)

  /** A configuration value as PHP hands it over: a string, or anything else,
      known by the name `gettype()` gives it. */
  datatype ConfigArg = StringArg(s: string) | OtherArg(typeName: string)

  /** The mailer's credentials, `null` until a setter stores one. */
  datatype Credentials = Credentials(apikey: Option<string>, secret: Option<string>)

  const Unconfigured: Credentials := Credentials(None, None)

  /** The checks `setApikey` and `setSecret` share: the value must be a
      string that is not blank, and it is stored trimmed. */
  function CheckCredential(field: Field, arg: ConfigArg): (r: Result<string, ConfigError>)
    ensures arg.OtherArg? ==> r == Failure(NotAString(field, arg.typeName))
    ensures r.Success? <==> arg.StringArg? && exists i :: 0 <= i < |arg.s| && !IsTrimChar(arg.s[i])
    ensures r.Failure? && arg.StringArg? ==> r.error == EmptyValue(field)
    ensures r.Success? ==> r.value != "" && !IsTrimChar(r.value[0]) && !IsTrimChar(r.value[|r.value| - 1])
    ensures r.Success? ==> exists i :: SliceWithin(arg.s, r.value, i)
  {
    match arg
    case OtherArg(typeName) => Failure(NotAString(field, typeName))
    case StringArg(s) =>
      TrimEmptyIff(s);
      var t := Trim(s);
      if |t| == 0 then Failure(EmptyValue(field)) else Success(t)
  }

  /** `setApikey`: a non-blank string is stored trimmed; anything else is
      rejected and leaves the credentials as they were. */
  function SetApikey(c: Credentials, arg: ConfigArg): (r: Result<Credentials, ConfigError>)
    ensures r.Success? <==> CheckCredential(Apikey, arg).Success?
    ensures r.Success? ==> r.value == c.(apikey := Some(CheckCredential(Apikey, arg).value))
    ensures r.Failure? ==> r.error == CheckCredential(Apikey, arg).error
  {
    match CheckCredential(Apikey, arg)
    case Success(key) => Success(c.(apikey := Some(key)))
    case Failure(e) => Failure(e)
  }

  /** `setSecret`: a non-blank string is stored trimmed; anything else is
      rejected and leaves the credentials as they were. */
  function SetSecret(c: Credentials, arg: ConfigArg): (r: Result<Credentials, ConfigError>)
    ensures r.Success? <==> CheckCredential(Secret, arg).Success?
    ensures r.Success? ==> r.value == c.(secret := Some(CheckCredential(Secret, arg).value))
    ensures r.Failure? ==> r.error == CheckCredential(Secret, arg).error
  {
    match CheckCredential(Secret, arg)
    case Success(key) => Success(c.(secret := Some(key)))
    case Failure(e) => Failure(e)
  }

  /** `gettype()` of a variable that was never assigned, which PHP reads as
      `null`. */
  const UndefinedTypeName: string := "NULL"

  /** `setSecret` as written: a non-string secret is refused, but the type it
      reports is taken from `$apikey`, a variable `setSecret` never defines,
      so it is always `"NULL"`. A string is handled as by `SetSecret`. */
  function SetSecretAsWritten(c: Credentials, arg: ConfigArg): (r: Result<Credentials, ConfigError>)
    ensures r.Success? <==> SetSecret(c, arg).Success?
    ensures arg.StringArg? ==> r == SetSecret(c, arg)
    ensures arg.OtherArg? ==> r == Failure(NotAString(Secret, UndefinedTypeName))
  {
    match arg
    case OtherArg(_) => Failure(NotAString(Secret, UndefinedTypeName))
    case StringArg(_) => SetSecret(c, arg)
  }

  /** An integer secret is reported as `"NULL"` rather than `"integer"`, the
      type `setApikey` reports for the same argument. */
  lemma SecretTypeMisreported()
    ensures SetSecretAsWritten(Unconfigured, OtherArg("integer")).error == NotAString(Secret, "NULL")
    ensures SetSecret(Unconfigured, OtherArg("integer")).error == NotAString(Secret, "integer")
    ensures SetApikey(Unconfigured, OtherArg("integer")).error == NotAString(Apikey, "integer")
  {
  }

  /** PHP's `!$value` for a possibly-null string. */
  predicate Falsy(v: Option<string>)
  {
    v.None? || Empty(v.value)
  }

  /** The credential checks of `init`: the key first, then the secret; a
      credential that is unset or falsy is refused. */
  function Init(c: Credentials): (r: Outcome<ConfigError>)
    ensures r.Pass? <==> c.apikey.Some? && c.secret.Some? && !Empty(c.apikey.value) && !Empty(c.secret.value)
    ensures r.Fail? && (c.apikey.None? || c.apikey.value == "" || c.apikey.value == "0") ==> r.error == Unset(Apikey)
    ensures r.Fail? && r.error != Unset(Apikey) ==> r.error == Unset(Secret) && !Falsy(c.apikey)
    ensures r.Fail? && !Falsy(c.apikey) ==> r.error == Unset(Secret)
  {
    if Falsy(c.apikey) then Fail(Unset(Apikey))
    else if Falsy(c.secret) then Fail(Unset(Secret))
    else Pass
  }

  /** A mailer never configured fails `init` on its key. */
  lemma InitUnconfigured()
    ensures Init(Unconfigured) == Fail(Unset(Apikey))
  {
  }

  /** Once both setters have accepted their values, `init` passes unless a
      stored credential is exactly `"0"`, which the setters accept and PHP
      reads as false. */
  lemma InitAfterSetters(c: Credentials, key: ConfigArg, secret: ConfigArg)
    ensures SetApikey(c, key).Success? && SetSecret(SetApikey(c, key).value, secret).Success? ==>
      var c' := SetSecret(SetApikey(c, key).value, secret).value;
      Init(c').Pass? <==> Trim(key.s) != "0" && Trim(secret.s) != "0"
  {
  }

  /** A value of the request body. */
  datatype BodyValue =
    | Value(v: Scalar)
    | Files(items: seq<Attachment>)
    | Nested(entries: Assoc<string>)

  /** One recipient as the provider reads it: `<email>`, preceded by the
      quoted display name when that name is not empty in PHP's sense. */
  function RenderAddress(email: string, name: string): (r: string)
    ensures |r| >= |email| + 2 && r[|r| - |email| - 2..] == "<" + email + ">"
    ensures r[0] == '"' <==> !Empty(name)
    ensures Empty(name) ==> |r| == |email| + 2
    ensures !Empty(name) ==> |r| == |name| + |email| + 5 && r[1..|name| + 1] == name && r[|name| + 1..|name| + 3] == "\" "
  {
    var address := "<" + email + ">";
    if !Empty(name) then "\"" + name + "\" " + address else address
  }

  /** Every recipient of a field, rendered, in the field's order. */
  function RenderAll(recipients: Assoc<string>): (r: seq<string>)
    ensures |r| == |recipients|
    ensures forall i :: 0 <= i < |r| ==> r[i] == RenderAddress(recipients[i].0, recipients[i].1)
  {
    seq(|recipients|, i requires 0 <= i < |recipients| => RenderAddress(recipients[i].0, recipients[i].1))
  }

  /** The rendered recipients of a field joined with `", "`. */
  function AddressList(recipients: Assoc<string>): string
  {
    Join(", ", RenderAll(recipients))
  }

  /** Every key the body can carry before the sender record is merged in. */
  const BodyKeys: set<string> :=
    {"Subject", "Text-part", "Html-part", "To", "Cc", "Bcc", "Attachments", "Inline_attachments", "Headers"}

  /** The entries of the body in the order the source assigns them, each
      with the condition under which it is assigned: the first four always;
      `Cc`/`Bcc` when the rendered list is not empty; an attachment list when
      it is not empty; `Headers`, the nested array `['Reply-to' => replyTo]`,
      when `replyTo` is not empty in PHP's sense. */
  function BodyEntries(m: Message): seq<(string, BodyValue, bool)>
  {
    var to, cc, bcc := RenderAll(m.to), RenderAll(m.cc), RenderAll(m.bcc);
    [ ("Subject", Value(Str(m.subject)), true),
      ("Text-part", Value(Str(m.textBody)), true),
      ("Html-part", Value(Str(m.htmlBody)), true),
      ("To", Value(Str(Join(", ", to))), true),
      ("Cc", Value(Str(Join(", ", cc))), |cc| > 0),
      ("Bcc", Value(Str(Join(", ", bcc))), |bcc| > 0),
      ("Attachments", Files(m.attachments), |m.attachments| > 0),
      ("Inline_attachments", Files(m.inlineAttachments), |m.inlineAttachments| > 0),
      ("Headers", Nested([("Reply-to", m.replyTo)]), !Empty(m.replyTo)) ]
  }

  /** The entries whose condition holds, in order. No key is in the array yet
      when the source assigns it, so each `$body[$key] = ...` appends. */
  function Present<V>(entries: seq<(string, V, bool)>): Assoc<V>
  {
    if |entries| == 0 then []
    else (if entries[0].2 then [(entries[0].0, entries[0].1)] else []) + Present(entries[1..])
  }

  predicate DistinctEntryKeys<V>(entries: seq<(string, V, bool)>)
  {
    forall i, j :: 0 <= i < j < |entries| ==> entries[i].0 != entries[j].0
  }

  /** A key is present exactly when one of the added entries carries it. */
  lemma {:induction false} PresentKeys<V>(entries: seq<(string, V, bool)>, k: string)
    ensures HasKey(Present(entries), k) <==> exists i :: 0 <= i < |entries| && entries[i].0 == k && entries[i].2
  {
    if |entries| > 0 {
      var head: Assoc<V> := if entries[0].2 then [(entries[0].0, entries[0].1)] else [];
      LookupConcat(head, Present(entries[1..]), k);
      PresentKeys(entries[1..], k);
      assert forall i :: 1 <= i < |entries| ==> entries[i] == entries[1..][i - 1];
      if HasKey(Present(entries[1..]), k) {
        var i :| 0 <= i < |entries[1..]| && entries[1..][i].0 == k && entries[1..][i].2;
        assert entries[i + 1].0 == k && entries[i + 1].2;
      }
    }
  }

  /** Each candidate entry is found with its value when it was added, and not
      at all otherwise; the added entries have distinct keys. */
  lemma {:induction false} PresentLookup<V>(entries: seq<(string, V, bool)>, i: nat)
    requires DistinctEntryKeys(entries) && i < |entries|
    ensures Lookup(Present(entries), entries[i].0) == if entries[i].2 then Some(entries[i].1) else None
    ensures DistinctKeys(Present(entries))
    decreases |entries|
  {
    var head: Assoc<V> := if entries[0].2 then [(entries[0].0, entries[0].1)] else [];
    var k := entries[i].0;
    assert forall j :: 1 <= j < |entries| ==> entries[j] == entries[1..][j - 1];
    LookupConcat(head, Present(entries[1..]), k);
    PresentKeys(entries[1..], entries[0].0);
    if |entries| > 1 {
      PresentLookup(entries[1..], if i == 0 then 0 else i - 1);
    }
    DistinctKeysConcat(head, Present(entries[1..]));
  }

  /** The body of `sendMessage` before the sender record is merged in: the
      four fixed entries, then each optional entry exactly when its source is
      not empty. */
  function MessageBody(m: Message): (b: Assoc<BodyValue>)
    ensures DistinctKeys(b)
    ensures forall k :: HasKey(b, k) ==> k in BodyKeys
    ensures Lookup(b, "Subject") == Some(Value(Str(m.subject)))
    ensures Lookup(b, "Text-part") == Some(Value(Str(m.textBody)))
    ensures Lookup(b, "Html-part") == Some(Value(Str(m.htmlBody)))
    ensures Lookup(b, "To") == Some(Value(Str(AddressList(m.to))))
    ensures Lookup(b, "Cc") == if |m.cc| > 0 then Some(Value(Str(AddressList(m.cc)))) else None
    ensures Lookup(b, "Bcc") == if |m.bcc| > 0 then Some(Value(Str(AddressList(m.bcc)))) else None
    ensures Lookup(b, "Attachments") == if |m.attachments| > 0 then Some(Files(m.attachments)) else None
    ensures Lookup(b, "Inline_attachments") == if |m.inlineAttachments| > 0 then Some(Files(m.inlineAttachments)) else None
    ensures Lookup(b, "Headers") == if !Empty(m.replyTo) then Some(Nested([("Reply-to", m.replyTo)])) else None
  {
    var e := BodyEntries(m);
    BodyKeysDistinct(m);
    PresentLookup(e, 0);
    PresentLookup(e, 1);
    PresentLookup(e, 2);
    PresentLookup(e, 3);
    PresentLookup(e, 4);
    PresentLookup(e, 5);
    PresentLookup(e, 6);
    PresentLookup(e, 7);
    PresentLookup(e, 8);
    forall k | HasKey(Present(e), k) ensures k in BodyKeys {
      PresentKeys(e, k);
    }
    Present(e)
  }

  /** The keys of `BodyEntries`, in order. */
  const BodyKeyOrder: seq<string> :=
    ["Subject", "Text-part", "Html-part", "To", "Cc", "Bcc", "Attachments", "Inline_attachments", "Headers"]

  lemma BodyKeyOrderDistinct()
    ensures forall i, j :: 0 <= i < j < |BodyKeyOrder| ==> BodyKeyOrder[i] != BodyKeyOrder[j]
    ensures forall i :: 0 <= i < |BodyKeyOrder| ==> BodyKeyOrder[i] in BodyKeys
  {
    assert "Text-part" != "Html-part";
    assert "Subject" != "Headers";
    assert "To" != "Cc";
  }

  lemma BodyKeysDistinct(m: Message)
    ensures DistinctEntryKeys(BodyEntries(m))
    ensures forall i :: 0 <= i < |BodyEntries(m)| ==> BodyEntries(m)[i].0 in BodyKeys
  {
    var e := BodyEntries(m);
    assert |e| == |BodyKeyOrder|;
    assert forall i :: 0 <= i < |e| ==> e[i].0 == BodyKeyOrder[i];
    BodyKeyOrderDistinct();
  }

  /** The sender record as body entries. */
  function SenderEntries(from: Assoc<Scalar>): (r: Assoc<BodyValue>)
    ensures forall k :: Lookup(r, k) == match Lookup(from, k) case Some(v) => Some(Value(v)) case None => None
    ensures forall k :: HasKey(r, k) <==> HasKey(from, k)
    ensures |r| == |from| && forall i :: 0 <= i < |r| ==> r[i].0 == from[i].0
    ensures DistinctKeys(from) ==> DistinctKeys(r)
  {
    if |from| == 0 then []
    else [(from[0].0, Value(from[0].1))] + SenderEntries(from[1..])
  }

  /** The request body of `sendMessage`: `array_merge($message->from, $body)`,
      so the sender's entries come first and the body wins on a shared key. */
  function RequestBody(m: Message): (r: Assoc<BodyValue>)
    ensures forall k :: HasKey(MessageBody(m), k) ==> Lookup(r, k) == Lookup(MessageBody(m), k)
    ensures forall k :: !HasKey(MessageBody(m), k) ==> Lookup(r, k) == Lookup(SenderEntries(m.from), k)
    ensures |m.from| <= |r| && forall i :: 0 <= i < |m.from| ==> r[i].0 == m.from[i].0
    ensures DistinctKeys(m.from) ==> DistinctKeys(r)
  {
    Merge(SenderEntries(m.from), MessageBody(m))
  }

  /** A key other than `FromEmail` and `FromName` is not in the sender
      record of a well-formed message, so the request body holds for it
      exactly what the message body holds. */
  lemma BodyKeyOfRequest(m: Message, k: string)
    requires Valid(m) && k != FromEmailKey && k != FromNameKey
    ensures Lookup(RequestBody(m), k) == Lookup(MessageBody(m), k)
  {
    assert !HasKey(SenderEntries(m.from), k);
  }

  /** What the request body of a well-formed message holds: the fixed
      entries, each optional entry exactly when its source is not empty, and
      the sender's `FromEmail`/`FromName` unchanged. */
  lemma RequestBodyShape(m: Message)
    requires Valid(m)
    ensures DistinctKeys(RequestBody(m))
    ensures Lookup(RequestBody(m), "To") == Some(Value(Str(AddressList(m.to))))
    ensures HasKey(RequestBody(m), "Cc") <==> |m.cc| > 0
    ensures HasKey(RequestBody(m), "Bcc") <==> |m.bcc| > 0
    ensures HasKey(RequestBody(m), "Attachments") <==> |m.attachments| > 0
    ensures HasKey(RequestBody(m), "Inline_attachments") <==> |m.inlineAttachments| > 0
    ensures HasKey(RequestBody(m), "Headers") <==> !Empty(m.replyTo)
    ensures Lookup(RequestBody(m), FromEmailKey) == Lookup(SenderEntries(m.from), FromEmailKey)
    ensures Lookup(RequestBody(m), FromNameKey) == Lookup(SenderEntries(m.from), FromNameKey)
  {
    BodyKeyOfRequest(m, "To");
    BodyKeyOfRequest(m, "Cc");
    BodyKeyOfRequest(m, "Bcc");
    BodyKeyOfRequest(m, "Attachments");
    BodyKeyOfRequest(m, "Inline_attachments");
    BodyKeyOfRequest(m, "Headers");
    SenderKeysNotBodyKeys();
  }

  /** The sender's keys are not among the keys the body can carry. */
  lemma SenderKeysNotBodyKeys()
    ensures FromEmailKey !in BodyKeys && FromNameKey !in BodyKeys
  {
  }

  /** Every `to` recipient appears in the `To` entry, rendered, in order,
      separated by `", "`: the entry for `to + more` is the entry for `to`,
      a separator, and the entry for `more`. */
  lemma AddressListAppend(to: Assoc<string>, more: Assoc<string>)
    requires |to| > 0 && |more| > 0
    ensures AddressList(to + more) == AddressList(to) + ", " + AddressList(more)
  {
    assert RenderAll(to + more) == RenderAll(to) + RenderAll(more);
    JoinAppend(", ", RenderAll(to), RenderAll(more));
  }

  /** A single recipient with a display name is sent as `"Alice" <a@x.com>`,
      and a message without `cc`, `bcc` or reply-to carries none of those
      entries. */
  lemma SingleNamedRecipient(m: Message)
    requires Valid(m) && m.to == [("a@x.com", "Alice")]
    requires |m.cc| == 0 && |m.bcc| == 0 && m.replyTo == ""
    ensures Lookup(RequestBody(m), "To") == Some(Value(Str("\"Alice\" <a@x.com>")))
    ensures !HasKey(RequestBody(m), "Cc") && !HasKey(RequestBody(m), "Bcc") && !HasKey(RequestBody(m), "Headers")
  {
    RequestBodyShape(m);
    RenderNamed();
    assert RenderAll(m.to) == [RenderAddress("a@x.com", "Alice")];
  }

  /** The rendering of one named recipient, spelled out. */
  lemma RenderNamed()
    ensures RenderAddress("a@x.com", "Alice") == "\"Alice\" <a@x.com>"
  {
    assert !Empty("Alice");
  }

  /** A recipient whose name is empty is sent as the bare `<address>`. */
  lemma UnnamedCcRecipient(m: Message)
    requires m.cc == [("b@x.com", "")]
    ensures Lookup(RequestBody(m), "Cc") == Some(Value(Str("<b@x.com>")))
  {
    var r := RenderAll(m.cc);
    assert r[0] == "<b@x.com>";
    assert AddressList(m.cc) == r[0];
  }
}
