/** The outgoing e-mail of `Message.php`: addressing fields, subject, bodies
    and two ordered attachment lists, with the setters that coerce loosely
    typed arguments into those shapes. Every setter except `setCharset`
    returns the updated message; `embed` and `embedContent` return the
    stored file name instead. */
module Messages {
  import opened Results
  import opened Php
  import Base64

  /** A PHP value that may be `null`. */
  datatype Scalar = Null | Str(s: string)

  /** One attachment record as the provider expects it. */
  datatype Attachment = Attachment(contentType: string, filename: string, content: string)

  /** The argument of `setFrom`, `setTo`, `setCc` and `setBcc`: a bare
      address, or an array mapping addresses to display names. */
  datatype AddressArg = Bare(email: string) | Named(entries: Assoc<string>)

  /** The fields of `Message`. A field the caller never set reads as the empty
      string or the empty array. */
  datatype Message = Message(
    charset: string,
    from: Assoc<Scalar>,
    to: Assoc<string>,
    replyTo: string,
    cc: Assoc<string>,
    bcc: Assoc<string>,
    subject: string,
    textBody: string,
    htmlBody: string,
    attachments: seq<Attachment>,
    inlineAttachments: seq<Attachment>)

  const NewMessage: Message := Message("", [], [], "", [], [], "", "", "", [], [])

  const FromEmailKey: string := "FromEmail"
  const FromNameKey: string := "FromName"
  const ContentTypeOption: string := "Content-type"
  const FileNameOption: string := "fileName"
  const DefaultContentType: string := "text/plain"
  const DefaultFileName: string := "attachment.txt"

  /** The shape every setter keeps: the address fields are arrays (distinct
      keys), and the sender record holds only `FromEmail` and `FromName`. */
  ghost predicate Valid(m: Message)
  {
    && DistinctKeys(m.from)
    && (forall k :: HasKey(m.from, k) ==> k == FromEmailKey || k == FromNameKey)
    && DistinctKeys(m.to) && DistinctKeys(m.cc) && DistinctKeys(m.bcc)
  }

  predicate ValidArg(arg: AddressArg)
  {
    arg.Named? ==> DistinctKeys(arg.entries)
  }

  lemma NewMessageValid()
    ensures Valid(NewMessage)
  {
  }

  /** The fields the simple setters store verbatim. */
  datatype TextField = Charset | ReplyTo | Subject | TextBody | HtmlBody

  /** The matching getter: `getCharset`, `getReplyTo`, `getSubject`,
      `getTextBody`, `getHtmlBody`. */
  function Get(m: Message, f: TextField): string
  {
    match f
    case Charset => m.charset
    case ReplyTo => m.replyTo
    case Subject => m.subject
    case TextBody => m.textBody
    case HtmlBody => m.htmlBody
  }

  /** `setCharset`, `setReplyTo`, `setSubject`, `setTextBody` and
      `setHtmlBody`: the value is stored verbatim, so the matching getter
      returns it, and nothing else changes. */
  function SetText(m: Message, f: TextField, value: string): (r: Message)
    ensures Get(r, f) == value
    ensures forall g :: g != f ==> Get(r, g) == Get(m, g)
    ensures r.from == m.from && r.to == m.to && r.cc == m.cc && r.bcc == m.bcc
    ensures r.attachments == m.attachments && r.inlineAttachments == m.inlineAttachments
    ensures Valid(m) ==> Valid(r)
  {
    match f
    case Charset => m.(charset := value)
    case ReplyTo => m.(replyTo := value)
    case Subject => m.(subject := value)
    case TextBody => m.(textBody := value)
    case HtmlBody => m.(htmlBody := value)
  }

  /** A call to one of these setters as they are written: the message after
      the call, which stores the value in every case, and the value the call
      evaluates to, which is that message except for `setCharset`, whose
      missing `return` statement gives `null`. */
  function SetTextCallAsWritten(m: Message, f: TextField, value: string): (r: (Message, Option<Message>))
    ensures r.0 == SetText(m, f, value) && Get(r.0, f) == value
    ensures r.1.None? <==> f == Charset
    ensures r.1.Some? ==> r.1.value == r.0
  {
    var updated := SetText(m, f, value);
    (updated, if f == Charset then None else Some(updated))
  }

  /** A chain that starts with `setCharset` has no message to continue
      with, while one that starts with any other simple setter does. */
  lemma CharsetNotFluent(m: Message, x: string, y: string)
    ensures SetTextCallAsWritten(m, Charset, x).0.charset == x
    ensures SetTextCallAsWritten(m, Charset, x).1.None?
    ensures SetTextCallAsWritten(m, Subject, y).1 == Some(SetText(m, Subject, y))
  {
  }

  /** Setting a field twice keeps only the second value, and setting two
      different fields gives the same message in either order. */
  lemma SetTextOverwrites(m: Message, f: TextField, g: TextField, x: string, y: string)
    ensures SetText(SetText(m, f, x), f, y) == SetText(m, f, y)
    ensures f != g ==> SetText(SetText(m, f, x), g, y) == SetText(SetText(m, g, y), f, x)
  {
  }

  /** `setFrom`. An array replaces the whole sender record with its first
      key as `FromEmail` and its first value as `FromName` (both `null` for
      an empty array, as `key()` and `array_shift()` give). A bare address
      overwrites `FromEmail` only, so an earlier `FromName` survives. */
  function SetFrom(m: Message, arg: AddressArg): (r: Message)
    ensures r.(from := m.from) == m
    ensures arg.Named? ==> Keys(r.from) == [FromEmailKey, FromNameKey]
    ensures arg.Named? && |arg.entries| > 0 ==>
      && Lookup(r.from, FromEmailKey) == Some(Str(arg.entries[0].0))
      && Lookup(r.from, FromNameKey) == Some(Str(arg.entries[0].1))
    ensures arg.Named? && |arg.entries| == 0 ==>
      Lookup(r.from, FromEmailKey) == Some(Null) && Lookup(r.from, FromNameKey) == Some(Null)
    ensures arg.Bare? ==>
      && Lookup(r.from, FromEmailKey) == Some(Str(arg.email))
      && Lookup(r.from, FromNameKey) == Lookup(m.from, FromNameKey)
    ensures Valid(m) ==> Valid(r)
  {
    match arg
    case Named(entries) =>
      var email := if |entries| == 0 then Null else Str(entries[0].0);
      var name := if |entries| == 0 then Null else Str(entries[0].1);
      var from := [(FromEmailKey, email), (FromNameKey, name)];
      SenderRecordShape(email, name);
      m.(from := from)
    case Bare(email) =>
      m.(from := Set(m.from, FromEmailKey, Str(email)))
  }

  lemma SenderRecordShape(email: Scalar, name: Scalar)
    ensures DistinctKeys([(FromEmailKey, email), (FromNameKey, name)])
    ensures forall k :: HasKey([(FromEmailKey, email), (FromNameKey, name)], k) ==> k == FromEmailKey || k == FromNameKey
  {
    var from := [(FromEmailKey, email), (FromNameKey, name)];
    assert from[1..] == [(FromNameKey, name)] && from[1..][1..] == [];
    assert FromEmailKey[4] != FromNameKey[4];
    assert !HasKey(from[1..][1..], FromNameKey);
    assert !HasKey(from[1..], FromEmailKey);
    forall k | HasKey(from, k) ensures k == FromEmailKey || k == FromNameKey {
      if k != FromEmailKey {
        assert HasKey(from[1..], k);
        assert !HasKey(from[1..][1..], k);
      }
    }
  }

  /** The coercion at the head of `setTo`, `setCc` and `setBcc`: a bare
      address becomes the one-entry array `[address => '']`; an array is
      taken as it is. */
  function Recipients(arg: AddressArg): (r: Assoc<string>)
    ensures arg.Bare? ==> |r| == 1 && r[0] == (arg.email, "")
    ensures arg.Named? ==> r == arg.entries
    ensures ValidArg(arg) ==> DistinctKeys(r)
  {
    match arg
    case Bare(email) => [(email, "")]
    case Named(entries) => entries
  }

  /** `setTo`: the coerced argument replaces the previous recipients. */
  function SetTo(m: Message, arg: AddressArg): (r: Message)
    ensures arg.Bare? ==> r.to == [(arg.email, "")] && Lookup(r.to, arg.email) == Some("")
    ensures arg.Named? ==> r.to == arg.entries
    ensures r.(to := m.to) == m
    ensures Valid(m) && ValidArg(arg) ==> Valid(r)
  {
    m.(to := Recipients(arg))
  }

  /** `setCc`: the coerced argument replaces the previous recipients. */
  function SetCc(m: Message, arg: AddressArg): (r: Message)
    ensures arg.Bare? ==> r.cc == [(arg.email, "")] && Lookup(r.cc, arg.email) == Some("")
    ensures arg.Named? ==> r.cc == arg.entries
    ensures r.(cc := m.cc) == m
    ensures Valid(m) && ValidArg(arg) ==> Valid(r)
  {
    m.(cc := Recipients(arg))
  }

  /** `setBcc`: the coerced argument replaces the previous recipients. */
  function SetBcc(m: Message, arg: AddressArg): (r: Message)
    ensures arg.Bare? ==> r.bcc == [(arg.email, "")] && Lookup(r.bcc, arg.email) == Some("")
    ensures arg.Named? ==> r.bcc == arg.entries
    ensures r.(bcc := m.bcc) == m
    ensures Valid(m) && ValidArg(arg) ==> Valid(r)
  {
    m.(bcc := Recipients(arg))
  }

  /** `isset($options[$key]) ? $options[$key] : $default`. */
  function OptionOr(options: Assoc<Scalar>, key: string, default: string): (r: string)
    ensures (exists v :: Lookup(options, key) == Some(Str(v))) ==> Lookup(options, key) == Some(Str(r))
    ensures (forall v :: Lookup(options, key) != Some(Str(v))) ==> r == default
  {
    var v := Lookup(options, key);
    if v.Some? && v.value.Str? then v.value.s else default
  }

  /** PHP's `basename()` on a `/`-separated path: trailing slashes are
      dropped, then everything up to the last remaining slash. */
  function Basename(path: string): (r: string)
    ensures '/' !in r
    ensures exists n :: SegmentEndingAt(path, r, n)
  {
    var p := StripTrailingSlashes(path);
    var r := LastSegment(p);
    assert path[|p| - |r|..|p|] == r;
    assert SegmentEndingAt(path, r, |p|);
    r
  }

  /** `r` is a whole path segment of `path` ending at `n`, only slashes
      follow it, and it ends at the last character that is not a slash. */
  predicate SegmentEndingAt(path: string, r: string, n: int)
  {
    && |r| <= n <= |path| && path[n - |r|..n] == r
    && (n == |r| || path[n - |r| - 1] == '/')
    && (n == 0 || path[n - 1] != '/')
    && (forall j :: n <= j < |path| ==> path[j] == '/')
  }

  /** The segment `Basename` describes is the only one: any slash-free
      segment that ends at the last character that is not a slash is the
      base name. */
  lemma BasenameUnique(path: string, r: string, n: int)
    requires '/' !in r && SegmentEndingAt(path, r, n)
    ensures r == Basename(path)
  {
    LastNonSlash(path, n);
    var p := StripTrailingSlashes(path);
    assert p[|p| - |r|..] == path[n - |r|..n];
    SegmentIsLast(p, r);
  }

  /** The position just after the last character that is not a slash is
      where the trailing slashes begin. */
  lemma {:induction false} LastNonSlash(path: string, n: int)
    requires 0 <= n <= |path| && (n == 0 || path[n - 1] != '/')
    requires forall j :: n <= j < |path| ==> path[j] == '/'
    ensures n == |StripTrailingSlashes(path)|
    decreases |path|
  {
    if |path| > 0 && path[|path| - 1] == '/' {
      LastNonSlash(path[..|path| - 1], n);
    }
  }

  /** A slash-free suffix that is the whole text or follows a slash is the
      last segment. */
  lemma {:induction false} SegmentIsLast(p: string, r: string)
    requires '/' !in r && |r| <= |p| && p[|p| - |r|..] == r
    requires |r| == |p| || p[|p| - |r| - 1] == '/'
    ensures r == LastSegment(p)
    decreases |p|
  {
    if |p| > 0 && p[|p| - 1] != '/' {
      assert |r| > 0;
      var p', r' := p[..|p| - 1], r[..|r| - 1];
      assert r[|r| - 1] == p[|p| - 1];
      assert '/' !in r' by {
        assert forall i :: 0 <= i < |r'| ==> r'[i] == r[i];
      }
      assert p'[|p'| - |r'|..] == r' by {
        assert forall i :: 0 <= i < |r'| ==> p'[|p'| - |r'| + i] == p[|p| - |r| + i] == r[i];
      }
      SegmentIsLast(p', r');
      assert LastSegment(p) == LastSegment(p') + [p[|p| - 1]];
      assert r == r' + [p[|p| - 1]];
    }
  }

  function StripTrailingSlashes(s: string): (r: string)
    ensures |r| <= |s| && r == s[..|r|]
    ensures forall j :: |r| <= j < |s| ==> s[j] == '/'
    ensures r == [] || r[|r| - 1] != '/'
  {
    if |s| > 0 && s[|s| - 1] == '/' then StripTrailingSlashes(s[..|s| - 1]) else s
  }

  function LastSegment(s: string): (r: string)
    ensures '/' !in r
    ensures |r| <= |s| && r == s[|s| - |r|..]
    ensures |r| == |s| || s[|s| - |r| - 1] == '/'
  {
    if |s| == 0 || s[|s| - 1] == '/' then ""
    else LastSegment(s[..|s| - 1]) + [s[|s| - 1]]
  }

  /** The attachment record built by all four attach/embed operations: each
      default stands unless the option is set, and the content is the
      base 64 encoding of the bytes. */
  function NewAttachment(content: seq<Base64.byte>, options: Assoc<Scalar>,
                         defaultType: string, defaultName: string): (a: Attachment)
    ensures a.contentType == OptionOr(options, ContentTypeOption, defaultType)
    ensures a.filename == OptionOr(options, FileNameOption, defaultName)
    ensures a.content == Base64.Encode(content)
    ensures Base64.Decode(a.content) == Some(content)
  {
    Base64.RoundTrip(content);
    Attachment(
      OptionOr(options, ContentTypeOption, defaultType),
      OptionOr(options, FileNameOption, defaultName),
      Base64.Encode(content))
  }

  /** `attachContent`: one record at the end of the regular attachments,
      typed `text/plain` and named `attachment.txt` unless the options say
      otherwise. */
  function AttachContent(m: Message, content: seq<Base64.byte>, options: Assoc<Scalar>): (r: Message)
    ensures |r.attachments| == |m.attachments| + 1
    ensures r.attachments[..|m.attachments|] == m.attachments
    ensures r.attachments[|m.attachments|].contentType == OptionOr(options, ContentTypeOption, DefaultContentType)
    ensures r.attachments[|m.attachments|].filename == OptionOr(options, FileNameOption, DefaultFileName)
    ensures r.attachments[|m.attachments|].content == Base64.Encode(content)
    ensures Base64.Decode(r.attachments[|m.attachments|].content) == Some(content)
    ensures r.(attachments := m.attachments) == m
  {
    var r := m.(attachments := m.attachments + [NewAttachment(content, options, DefaultContentType, DefaultFileName)]);
    assert r.attachments[..|m.attachments|] == m.attachments;
    r
  }

  /** `attach`: as `attachContent`, with the file's bytes and its detected
      MIME type given, and the path's base name as the default file name. */
  function Attach(m: Message, fileName: string, options: Assoc<Scalar>,
                  fileBytes: seq<Base64.byte>, detectedType: string): (r: Message)
    ensures |r.attachments| == |m.attachments| + 1
    ensures r.attachments[..|m.attachments|] == m.attachments
    ensures r.attachments[|m.attachments|].contentType == OptionOr(options, ContentTypeOption, detectedType)
    ensures r.attachments[|m.attachments|].filename == OptionOr(options, FileNameOption, Basename(fileName))
    ensures r.attachments[|m.attachments|].content == Base64.Encode(fileBytes)
    ensures Base64.Decode(r.attachments[|m.attachments|].content) == Some(fileBytes)
    ensures r.(attachments := m.attachments) == m
  {
    var r := m.(attachments := m.attachments + [NewAttachment(fileBytes, options, detectedType, Basename(fileName))]);
    assert r.attachments[..|m.attachments|] == m.attachments;
    r
  }

  /** `embedContent`: the same record as `attachContent`, appended to the
      inline attachments; the result carries the record's file name. */
  function EmbedContent(m: Message, content: seq<Base64.byte>, options: Assoc<Scalar>): (r: (Message, string))
    ensures |r.0.inlineAttachments| == |m.inlineAttachments| + 1
    ensures r.0.inlineAttachments[..|m.inlineAttachments|] == m.inlineAttachments
    ensures r.0.inlineAttachments[|m.inlineAttachments|].contentType == OptionOr(options, ContentTypeOption, DefaultContentType)
    ensures r.0.inlineAttachments[|m.inlineAttachments|].filename == r.1
    ensures r.1 == OptionOr(options, FileNameOption, DefaultFileName)
    ensures r.0.inlineAttachments[|m.inlineAttachments|].content == Base64.Encode(content)
    ensures Base64.Decode(r.0.inlineAttachments[|m.inlineAttachments|].content) == Some(content)
    ensures r.0.(inlineAttachments := m.inlineAttachments) == m
  {
    var a := NewAttachment(content, options, DefaultContentType, DefaultFileName);
    var m' := m.(inlineAttachments := m.inlineAttachments + [a]);
    assert m'.inlineAttachments[..|m.inlineAttachments|] == m.inlineAttachments;
    (m', a.filename)
  }

  /** `embed`: as `embedContent`, with the file's bytes and its detected
      MIME type given, and the path's base name as the default file name. */
  function Embed(m: Message, fileName: string, options: Assoc<Scalar>,
                 fileBytes: seq<Base64.byte>, detectedType: string): (r: (Message, string))
    ensures |r.0.inlineAttachments| == |m.inlineAttachments| + 1
    ensures r.0.inlineAttachments[..|m.inlineAttachments|] == m.inlineAttachments
    ensures r.0.inlineAttachments[|m.inlineAttachments|].contentType == OptionOr(options, ContentTypeOption, detectedType)
    ensures r.0.inlineAttachments[|m.inlineAttachments|].filename == r.1
    ensures r.1 == OptionOr(options, FileNameOption, Basename(fileName))
    ensures r.0.inlineAttachments[|m.inlineAttachments|].content == Base64.Encode(fileBytes)
    ensures Base64.Decode(r.0.inlineAttachments[|m.inlineAttachments|].content) == Some(fileBytes)
    ensures r.0.(inlineAttachments := m.inlineAttachments) == m
  {
    var a := NewAttachment(fileBytes, options, detectedType, Basename(fileName));
    var m' := m.(inlineAttachments := m.inlineAttachments + [a]);
    assert m'.inlineAttachments[..|m.inlineAttachments|] == m.inlineAttachments;
    (m', a.filename)
  }

  /** `toString`: the recipients' display names joined with commas, the
      subject and the text body, one per line. Splitting the result at line
      breaks gives the lines of the joined names, then those of the subject,
      then those of the body; joining those lines with line breaks gives the
      result back, so this fixes it. When neither the names nor the subject
      hold a line break, each of them is one line. */
  function ToString(m: Message): (r: string)
    ensures Lines(r) == Lines(Join(",", Values(m.to))) + Lines(m.subject) + Lines(m.textBody)
    ensures '\n' !in Join(",", Values(m.to)) && '\n' !in m.subject ==>
      Lines(r) == [Join(",", Values(m.to)), m.subject] + Lines(m.textBody)
  {
    var r := Join(",", Values(m.to)) + "\n" + (m.subject + "\n" + m.textBody);
    ThreeLines(Join(",", Values(m.to)), m.subject, m.textBody);
    r
  }

  /** Three texts separated by line breaks split into the lines of each;
      when the first two hold no line break, each of them is one line. */
  lemma ThreeLines(x: string, y: string, z: string)
    ensures Lines(x + "\n" + (y + "\n" + z)) == Lines(x) + Lines(y) + Lines(z)
    ensures '\n' !in x && '\n' !in y ==> Lines(x + "\n" + (y + "\n" + z)) == [x, y] + Lines(z)
  {
    LinesSplit(y, z);
    LinesSplit(x, y + "\n" + z);
    LinesOne(x);
    LinesOne(y);
  }

  /** `explode("\n", $s)`: the lines of `s`. */
  function Lines(s: string): (r: seq<string>)
    ensures |r| > 0
  {
    if |s| == 0 then [""]
    else
      var rest := Lines(s[1..]);
      if s[0] == '\n' then [""] + rest
      else [[s[0]] + rest[0]] + rest[1..]
  }

  /** Text without a line break is a single line. */
  lemma {:induction false} LinesOne(a: string)
    ensures '\n' !in a ==> Lines(a) == [a]
  {
    if |a| > 0 && '\n' !in a {
      assert '\n' !in a[1..] by {
        assert forall i :: 0 <= i < |a[1..]| ==> a[1..][i] == a[i + 1];
      }
      LinesOne(a[1..]);
      assert [a[0]] + a[1..] == a;
    }
  }

  /** Two texts around a line break: the lines of the first, then those of
      the second. */
  lemma {:induction false} LinesSplit(a: string, b: string)
    ensures Lines(a + "\n" + b) == Lines(a) + Lines(b)
  {
    if |a| == 0 {
      assert (a + "\n" + b)[1..] == b;
    } else {
      LinesSplit(a[1..], b);
      LinesSplitStep(a, b);
    }
  }

  /** The step of `LinesSplit`: from the split of the text after the first
      character to the split of the whole. */
  lemma LinesSplitStep(a: string, b: string)
    requires |a| > 0 && Lines(a[1..] + "\n" + b) == Lines(a[1..]) + Lines(b)
    ensures Lines(a + "\n" + b) == Lines(a) + Lines(b)
  {
    var t := a[1..] + "\n" + b;
    assert a + "\n" + b == [a[0]] + t;
    assert a == [a[0]] + a[1..];
    LinesCons1(a[0], t);
    LinesCons1(a[0], a[1..]);
    ConsAlgebra(a[0], Lines(a[1..]), Lines(b));
  }

  /** One character in front of a text: a line break starts a new first
      line, any other character joins the first line. */
  lemma LinesCons1(c: char, t: string)
    ensures Lines([c] + t) == ConsLine(c, Lines(t))
  {
    assert ([c] + t)[1..] == t;
  }

  function ConsLine(c: char, xs: seq<string>): seq<string>
    requires |xs| > 0
  {
    if c == '\n' then [""] + xs else [[c] + xs[0]] + xs[1..]
  }

  lemma ConsAlgebra(c: char, xs: seq<string>, ys: seq<string>)
    requires |xs| > 0
    ensures ConsLine(c, xs + ys) == ConsLine(c, xs) + ys
  {
    if c != '\n' {
      assert (xs + ys)[1..] == xs[1..] + ys;
    }
  }

  /** Joining the lines of a text with line breaks gives the text back. */
  lemma {:induction false} LinesRoundTrip(s: string)
    ensures Join("\n", Lines(s)) == s
  {
    if |s| > 0 {
      var rest := Lines(s[1..]);
      LinesRoundTrip(s[1..]);
      if s[0] == '\n' {
        assert Join("\n", [""] + rest) == "" + "\n" + Join("\n", rest);
      } else if |rest| == 1 {
        assert Join("\n", Lines(s)) == [s[0]] + rest[0];
      } else {
        assert Join("\n", Lines(s)) == [s[0]] + rest[0] + "\n" + Join("\n", rest[1..]);
        assert Join("\n", rest) == rest[0] + "\n" + Join("\n", rest[1..]);
      }
    }
  }
}
