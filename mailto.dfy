/** The contact-form bridge: the `mailto:` URI built from the form's four
    fields, checked against the syntax of section 2 of RFC 6068 and read
    back the way a mail client splits and decodes it. */
module Mailto {

  import opened Wrappers
  import opened Sequences
  import opened UriEncoding

  /** The fixed address every message goes to. */
  const Recipient := "fahadshaon09@gmail.com"

  /** The message text composed from the form fields: a `Name:` line, an
      `Email:` line, a blank line, a `Message:` line and then the message,
      which is the text's tail. */
  function BodyTemplate(name: string, email: string, message: string): (body: string)
    ensures |body| == |name| + |email| + |message| + 25
    ensures body[..6] == "Name: " && body[6..6 + |name|] == name
    ensures body[|body| - |message|..] == message
  {
    "Name: " + name + "\nEmail: " + email + "\n\nMessage:\n" + message
  }

  /** The URI the submit handler navigates to: a `mailto` URI for the
      recipient whose header fields are `subject` and `body`, in that order,
      each holding the encoded form text. */
  function MailtoLink(name: string, email: string, subject: string, message: string): (link: string)
    ensures link == MailtoUri(Recipient, [HField("subject", EncodeURIComponent(subject)),
                                          HField("body", EncodeURIComponent(BodyTemplate(name, email, message)))])
  {
    var es, eb := EncodeURIComponent(subject), EncodeURIComponent(BodyTemplate(name, email, message));
    JoinTwoFields("subject", es, "body", eb);
    LinkShape(Recipient, es, eb);
    "mailto:" + Recipient + "?subject=" + es + "&body=" + eb
  }

  // ---------------------------------------------------------------------
  // Section 2 of RFC 6068

  /** A header field `hfname=hfvalue`. */
  datatype HField = HField(name: string, value: string)

  function JoinFields(fields: seq<HField>): string
    requires |fields| > 0
    decreases |fields|
  {
    var first := fields[0].name + "=" + fields[0].value;
    if |fields| == 1 then first else first + "&" + JoinFields(fields[1..])
  }

  /** `mailtoURI = "mailto:" [ to ] [ hfields ]`, `hfields = "?" hfield *( "&" hfield )`. */
  function MailtoUri(to: string, fields: seq<HField>): string
  {
    "mailto:" + to + (if fields == [] then "" else "?" + JoinFields(fields))
  }

  /** `qchar = unreserved / pct-encoded / some-delims`, single-character part. */
  predicate IsQChar(c: char)
  {
    ('A' <= c <= 'Z') || ('a' <= c <= 'z') || ('0' <= c <= '9') ||
    c == '-' || c == '.' || c == '_' || c == '~' ||
    c == '!' || c == '$' || c == '\'' || c == '(' || c == ')' || c == '*' ||
    c == '+' || c == ',' || c == ';' || c == ':' || c == '@'
  }

  predicate IsHexDig(c: char)
  {
    ('0' <= c <= '9') || ('A' <= c <= 'F') || ('a' <= c <= 'f')
  }

  /** `*qchar`, the form of `hfname` and `hfvalue`. */
  predicate IsQChars(s: string)
    decreases |s|
  {
    if s == [] then true
    else if s[0] == '%' then |s| >= 3 && IsHexDig(s[1]) && IsHexDig(s[2]) && IsQChars(s[3..])
    else IsQChar(s[0]) && IsQChars(s[1..])
  }

  /** Every string `encodeURIComponent` produces is a valid `hfvalue`. */
  lemma {:induction false} EncodedIsQChars(s: string)
    requires IsEncoded(s)
    ensures IsQChars(s)
    decreases |s|
  {
    if s != [] {
      if s[0] == '%' {
        EncodedIsQChars(s[3..]);
      } else {
        EncodedIsQChars(s[1..]);
      }
    }
  }

  /** The characters allowed in a `dot-atom-text` of an address that need no
      percent-encoding inside a `mailto:` URI. */
  predicate IsAddrChar(c: char)
  {
    ('A' <= c <= 'Z') || ('a' <= c <= 'z') || ('0' <= c <= '9') ||
    c == '!' || c == '$' || c == '\'' || c == '*' || c == '+' || c == '-' || c == '_' || c == '~'
  }

  /** `1*atext`. */
  predicate IsAtom(s: string)
    decreases |s|
  {
    |s| > 0 && IsAddrChar(s[0]) && (|s| == 1 || IsAtom(s[1..]))
  }

  /** `dot-atom-text = 1*atext *("." 1*atext)`. */
  predicate IsDotAtomText(s: string)
    decreases |s|
  {
    match FirstIndexOf(s, '.')
    case None => IsAtom(s)
    case Some(k) => IsAtom(s[..k]) && IsDotAtomText(s[k + 1..])
  }

  /** `addr-spec = local-part "@" domain`, both parts in dot-atom form. */
  predicate IsAddrSpec(a: string)
  {
    match FirstIndexOf(a, '@')
    case None => false
    case Some(k) => IsDotAtomText(a[..k]) && IsDotAtomText(a[k + 1..])
  }

  lemma {:induction false} AtomOfAddrChars(s: string)
    requires |s| > 0 && forall i :: 0 <= i < |s| ==> IsAddrChar(s[i])
    ensures IsAtom(s)
    decreases |s|
  {
    if |s| > 1 {
      AtomOfAddrChars(s[1..]);
    }
  }

  lemma AddrSpecOf(local: string, host: string, tld: string)
    requires |local| > 0 && forall i :: 0 <= i < |local| ==> IsAddrChar(local[i])
    requires |host| > 0 && forall i :: 0 <= i < |host| ==> IsAddrChar(host[i])
    requires |tld| > 0 && forall i :: 0 <= i < |tld| ==> IsAddrChar(tld[i])
    ensures IsAddrSpec(local + ['@'] + (host + ['.'] + tld))
  {
    var domain := host + ['.'] + tld;
    var a := local + ['@'] + domain;
    assert '@' !in local;
    assert '.' !in host;
    assert '.' !in tld;
    AtomOfAddrChars(local);
    AtomOfAddrChars(host);
    AtomOfAddrChars(tld);
    assert IsDotAtomText(local);
    assert IsDotAtomText(tld);
    FirstIndexAfter(host, '.', tld);
    assert domain[..|host|] == host;
    assert domain[|host| + 1..] == tld;
    assert IsDotAtomText(domain);
    FirstIndexAfter(local, '@', domain);
    assert a[..|local|] == local;
    assert a[|local| + 1..] == domain;
  }

  lemma RecipientIsAddrSpec()
    ensures IsAddrSpec(Recipient)
  {
    var local, host, tld := "fahadshaon09", "gmail", "com";
    assert Recipient == local + ['@'] + (host + ['.'] + tld);
    AddrSpecOf(local, host, tld);
  }

  /** The address needs no decoding and holds no URI delimiter. */
  lemma RecipientNeedsNoEscaping()
    ensures '?' !in Recipient && '&' !in Recipient && '%' !in Recipient
    ensures DecodeURIComponent(Recipient) == Some(Recipient)
  {
    var local, host, tld := "fahadshaon09", "gmail", "com";
    assert Recipient == local + ['@'] + (host + ['.'] + tld);
    assert '?' !in local && '?' !in host && '?' !in tld;
    assert '&' !in local && '&' !in host && '&' !in tld;
    assert '%' !in local && '%' !in host && '%' !in tld;
  }

  ghost predicate IsMailtoUri(uri: string)
  {
    exists to: string, fields: seq<HField> :: uri == MailtoUri(to, fields) && IsAddrSpec(to) &&
      forall i :: 0 <= i < |fields| ==> IsQChars(fields[i].name) && IsQChars(fields[i].value)
  }

  lemma JoinTwoFields(n1: string, v1: string, n2: string, v2: string)
    ensures JoinFields([HField(n1, v1), HField(n2, v2)]) == n1 + "=" + v1 + "&" + (n2 + "=" + v2)
  {
    var fields := [HField(n1, v1), HField(n2, v2)];
    assert fields[1..] == [HField(n2, v2)];
  }

  /** The shape of the link for any address and any encoded subject and
      message text. */
  lemma LinkIsMailtoUri(to: string, es: string, eb: string)
    requires IsAddrSpec(to) && IsEncoded(es) && IsEncoded(eb)
    ensures "mailto:" + to + "?subject=" + es + "&body=" + eb
         == MailtoUri(to, [HField("subject", es), HField("body", eb)])
    ensures IsMailtoUri("mailto:" + to + "?subject=" + es + "&body=" + eb)
  {
    var fields := [HField("subject", es), HField("body", eb)];
    JoinTwoFields("subject", es, "body", eb);
    LinkShape(to, es, eb);
    assert MailtoUri(to, fields) == "mailto:" + to + ("?" + JoinFields(fields));
    EncodedIsQChars(es);
    EncodedIsQChars(eb);
    FieldNamesAreQChars();
    assert forall i :: 0 <= i < |fields| ==> IsQChars(fields[i].name) && IsQChars(fields[i].value);
  }

  /** Regrouping of the link's literal pieces into field syntax. */
  lemma LinkShape(to: string, es: string, eb: string)
    ensures "mailto:" + to + "?subject=" + es + "&body=" + eb
         == "mailto:" + to + ("?" + ("subject" + "=" + es + "&" + ("body" + "=" + eb)))
  {
    assert "?subject=" == "?" + "subject" + "=";
    assert "&body=" == "&" + "body" + "=";
  }

  lemma FieldNamesAreQChars()
    ensures IsQChars("subject") && IsQChars("body")
  {
  }

  /** For every form input, the link is a well-formed `mailto:` URI. */
  lemma MailtoLinkIsMailtoUri(name: string, email: string, subject: string, message: string)
    ensures IsMailtoUri(MailtoLink(name, email, subject, message))
  {
    var es := EncodeURIComponent(subject);
    var eb := EncodeURIComponent(BodyTemplate(name, email, message));
    RecipientIsAddrSpec();
    LinkIsMailtoUri(Recipient, es, eb);
  }

  // ---------------------------------------------------------------------
  // Reading the link back

  /** What a mail client takes from the link: the address and the decoded
      header fields in order. */
  datatype Mail = Mail(to: string, fields: seq<HField>)

  /** `hfname=hfvalue`, split at the first `=` and percent-decoded. */
  function ParseField(f: string): Option<HField>
  {
    match FirstIndexOf(f, '=')
    case None => None
    case Some(k) =>
      match DecodeURIComponent(f[..k])
      case None => None
      case Some(n) =>
        match DecodeURIComponent(f[k + 1..])
        case None => None
        case Some(v) => Some(HField(n, v))
  }

  function ParseFields(fs: seq<string>): Option<seq<HField>>
    decreases |fs|
  {
    if fs == [] then Some([])
    else match ParseField(fs[0])
      case None => None
      case Some(f) =>
        match ParseFields(fs[1..])
        case None => None
        case Some(rest) => Some([f] + rest)
  }

  function ParseMailto(uri: string): Option<Mail>
  {
    if |uri| < 7 || uri[..7] != "mailto:" then None else ParseAddressAndFields(uri[7..])
  }

  /** What follows the scheme: the address up to the first `?`, then the
      header fields separated by `&`. */
  function ParseAddressAndFields(rest: string): Option<Mail>
  {
    match FirstIndexOf(rest, '?')
    case None =>
      (match DecodeURIComponent(rest)
       case None => None
       case Some(to) => Some(Mail(to, [])))
    case Some(q) =>
      match DecodeURIComponent(rest[..q])
      case None => None
      case Some(to) =>
        match ParseFields(Split(rest[q + 1..], '&'))
        case None => None
        case Some(fields) => Some(Mail(to, fields))
  }

  lemma ParseEncodedField(name: string, ev: string, value: string)
    requires '=' !in name && '%' !in name
    requires DecodeURIComponent(ev) == Some(value)
    ensures ParseField(name + "=" + ev) == Some(HField(name, value))
  {
    var f := name + "=" + ev;
    assert f == name + ['='] + ev;
    FirstIndexAfter(name, '=', ev);
    assert f[..|name|] == name;
    assert f[|name| + 1..] == ev;
  }

  lemma EncodedHasNo(s: string, c: char)
    requires !IsUnescaped(c) && c != '%'
    ensures c !in EncodeURIComponent(s)
  {
    EncodedCharacters(EncodeURIComponent(s));
  }

  /** Reading back a link built from any address and any two values whose
      encodings hold no `&`. */
  lemma ParseLink(to: string, es: string, eb: string, subject: string, body: string)
    requires '?' !in to && DecodeURIComponent(to) == Some(to)
    requires '&' !in es && '&' !in eb
    requires DecodeURIComponent(es) == Some(subject) && DecodeURIComponent(eb) == Some(body)
    ensures ParseMailto("mailto:" + to + "?subject=" + es + "&body=" + eb)
         == Some(Mail(to, [HField("subject", subject), HField("body", body)]))
  {
    var uri := "mailto:" + to + "?subject=" + es + "&body=" + eb;
    var f1 := "subject" + "=" + es;
    var f2 := "body" + "=" + eb;
    var query := f1 + ['&'] + f2;
    assert uri == "mailto:" + (to + ['?'] + query) by {
      LinkShape(to, es, eb);
    }
    assert uri[7..] == to + ['?'] + query;
    ParseQuery(to, f1, f2);
    ParseTwoFields(es, eb, subject, body);
  }

  lemma ParseQuery(to: string, f1: string, f2: string)
    requires '?' !in to && '&' !in f1 && '&' !in f2
    ensures ParseAddressAndFields(to + ['?'] + (f1 + ['&'] + f2))
         == (match DecodeURIComponent(to)
             case None => None
             case Some(address) =>
               match ParseFields([f1, f2])
               case None => None
               case Some(fields) => Some(Mail(address, fields)))
  {
    var query := f1 + ['&'] + f2;
    var rest := to + ['?'] + query;
    FirstIndexAfter(to, '?', query);
    assert rest[..|to|] == to;
    assert rest[|to| + 1..] == query;
    SplitJoin(f1, '&', f2);
    assert Split(f2, '&') == [f2];
    assert [f1] + [f2] == [f1, f2];
  }

  lemma ParseTwoFields(es: string, eb: string, subject: string, body: string)
    requires DecodeURIComponent(es) == Some(subject) && DecodeURIComponent(eb) == Some(body)
    ensures ParseFields(["subject" + "=" + es, "body" + "=" + eb])
         == Some([HField("subject", subject), HField("body", body)])
  {
    FieldNamesArePlain();
    ParseEncodedField("subject", es, subject);
    ParseEncodedField("body", eb, body);
    var fs := ["subject" + "=" + es, "body" + "=" + eb];
    var tail := ["body" + "=" + eb];
    assert tail[1..] == [];
    assert ParseField(tail[0]) == Some(HField("body", body));
    assert ParseFields(tail[1..]) == Some([]);
    assert [HField("body", body)] + [] == [HField("body", body)];
    assert ParseFields(tail) == Some([HField("body", body)]);
    assert fs[0] == "subject" + "=" + es && fs[1..] == tail;
    assert ParseFields(fs) == Some([HField("subject", subject)] + [HField("body", body)]);
    assert [HField("subject", subject)] + [HField("body", body)] == [HField("subject", subject), HField("body", body)];
  }

  lemma FieldNamesArePlain()
    ensures '=' !in "subject" && '%' !in "subject"
    ensures '=' !in "body" && '%' !in "body"
  {
  }

  /** The mail client recovers exactly the recipient, the subject and the
      composed message text, whatever the user typed. */
  lemma MailtoRoundTrip(name: string, email: string, subject: string, message: string)
    ensures ParseMailto(MailtoLink(name, email, subject, message))
         == Some(Mail(Recipient, [HField("subject", subject),
                                 HField("body", BodyTemplate(name, email, message))]))
  {
    var body := BodyTemplate(name, email, message);
    var es := EncodeURIComponent(subject);
    var eb := EncodeURIComponent(body);
    RecipientNeedsNoEscaping();
    EncodedHasNo(subject, '&');
    EncodedHasNo(body, '&');
    DecodeEncode(subject);
    DecodeEncode(body);
    ParseLink(Recipient, es, eb, subject, body);
  }
}
