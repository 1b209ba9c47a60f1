/** do_body: from a certificate request to a database row (apps/ca.c:1489-1986). */
module Issue {
  import opened CaTable
  import opened Database
  import opened Policy

  const T61STRING := 20
  const PRINTABLESTRING := 19
  const IA5STRING := 22
  const UTF8STRING := 12
  const BMPSTRING := 30

  /** emailDn and preserve as on the command line, and selfsign. */
  datatype Options = Options(emailDn: bool, preserve: bool, selfsign: bool)

  /** Foreign code: OBJ_txt2nid, ASN1_PRINTABLE_type and X509_NAME_oneline. */
  datatype Lib = Lib(nid: NidTable, printable: string -> int, oneline: Name -> string)

  /** What a run certifies with. */
  datatype Ca = Ca(lib: Lib, o: Options, policy: seq<Rule>, name: Name)

  /** A request file: whether it loads, whether its signature matches, its subject, the expiry it gets, whether dates
      and extensions can be set on the certificate, and what comes of the prompt. */
  datatype Application =
    Application(readable: bool, verified: bool, req: Name, notAfter: string, built: bool, consent: Consent)

  /** The check on one request entry (apps/ca.c:1551-1569). */
  predicate EntryOk(lib: Lib, emailDn: bool, e: Entry) {
    (e.obj == EMAIL && !emailDn) ||
    ((e.obj == EMAIL ==> e.styp == IA5STRING) &&
     (e.styp != BMPSTRING && e.styp != UTF8STRING ==>
        var j := lib.printable(e.data);
        !(j == T61STRING && e.styp != T61STRING) && !(j == IA5STRING && e.styp == PRINTABLESTRING)))
  }

  /** When a request gets as far as the database. */
  ghost predicate Acceptable(ca: Ca, a: Application) {
    (forall i :: 0 <= i < |a.req| ==> EntryOk(ca.lib, ca.o.emailDn, a.req[i])) &&
    (forall i :: 0 <= i < |ca.policy| ==>
       RuleOk(ca.lib.nid, ca.policy[i], a.req, if ca.o.selfsign then a.req else ca.name)) &&
    a.built
  }

  /** The subject of the new certificate. */
  function Subject(lib: Lib, o: Options, policy: seq<Rule>, req: Name): Name {
    var s := if o.preserve then req else Numbered(Chosen(lib.nid, policy, req));
    if o.emailDn then s else DropEmail(s, 0)
  }

  method CheckStrings(lib: Lib, emailDn: bool, req: Name) returns (ok: bool)
    ensures ok <==> forall i :: 0 <= i < |req| ==> EntryOk(lib, emailDn, req[i])
  {
    var i := 0;
    while i < |req|
      invariant 0 <= i <= |req| && forall k :: 0 <= k < i ==> EntryOk(lib, emailDn, req[k])
    {
      var fine := CheckEntry(lib, emailDn, req[i]);
      if !fine { return false; }
      i := i + 1;
    }
    return true;
  }

  method CheckEntry(lib: Lib, emailDn: bool, e: Entry) returns (ok: bool)
    ensures ok <==> EntryOk(lib, emailDn, e)
  {
    if e.obj == EMAIL && !emailDn { return true; }
    if e.obj == EMAIL && e.styp != IA5STRING { return false; }
    if e.styp != BMPSTRING && e.styp != UTF8STRING {
      var j := lib.printable(e.data);
      if (j == T61STRING && e.styp != T61STRING) || (j == IA5STRING && e.styp == PRINTABLESTRING) { return false; }
    }
    return true;
  }

  /** An entry that is refused: an email address (48) that is to stay in the name and is no IA5String (22), or one that
      is neither a BMPString (30) nor a UTF8String (12) and has characters that only T61String (20) allows while being
      none, or that PrintableString (19) does not allow while being one. */
  ghost predicate IllegalEntry(lib: Lib, emailDn: bool, e: Entry) {
    (e.obj != 48 || emailDn) &&
    ((e.obj == 48 && e.styp != 22) ||
     (e.styp != 30 && e.styp != 12 &&
      ((lib.printable(e.data) == 20 && e.styp != 20) || (lib.printable(e.data) == 22 && e.styp == 19))))
  }

  /** A request gets as far as the database exactly when it has no illegal entry, meets every rule of the policy,
      against the CA name or, self-signed, its own, and its certificate can be built. */
  lemma {:induction false} AcceptableExactly(ca: Ca, a: Application)
    ensures Acceptable(ca, a) <==>
            (forall i :: 0 <= i < |a.req| ==> !IllegalEntry(ca.lib, ca.o.emailDn, a.req[i])) &&
            (forall i :: 0 <= i < |ca.policy| ==>
               RuleMet(ca.lib.nid, ca.policy[i], a.req, if ca.o.selfsign then a.req else ca.name)) &&
            a.built
  {
    hide RuleMet, RuleOk;
    var issuer := if ca.o.selfsign then a.req else ca.name;
    forall i | 0 <= i < |ca.policy|
      ensures RuleOk(ca.lib.nid, ca.policy[i], a.req, issuer) <==> RuleMet(ca.lib.nid, ca.policy[i], a.req, issuer)
    {
      RuleExactly(ca.lib.nid, ca.policy[i], a.req, issuer);
    }
    forall i | 0 <= i < |a.req|
      ensures EntryOk(ca.lib, ca.o.emailDn, a.req[i]) <==> !IllegalEntry(ca.lib, ca.o.emailDn, a.req[i])
    {
    }
  }

  /** The certificate that a request asks for. */
  function CertOf(ca: Ca, a: Application, serial: int): Cert {
    Cert(serial, ca.lib.oneline(Subject(ca.lib, ca.o, ca.policy, a.req)), a.notAfter)
  }

  /** The table changes exactly as Certify says for the certificate whose subject the policy selects;
      a request that the string checks or the policy refuse, or whose certificate cannot be built, leaves it alone. */
  method DoBody(db: CaDb, ca: Ca, a: Application, serial: int) returns (j: int)
    requires db.Valid()
    modifies db
    ensures db.Valid()
    ensures !Acceptable(ca, a) ==> j == -1 && db.View() == old(db.View())
    ensures Acceptable(ca, a) ==> (j, db.View()) == Certify(old(db.View()), CertOf(ca, a, serial), a.consent)
    ensures Acceptable(ca, a) ==> IssueOutcome(old(db.View()), CertOf(ca, a, serial), a.consent, j, db.View())
  {
    hide IssueOutcome, MadeOf, RuleMet;
    var fine := CheckStrings(ca.lib, ca.o.emailDn, a.req);
    if !fine { return -1; }
    var issuer := if ca.o.selfsign then a.req else ca.name;
    var ok, subject := CheckPolicy(ca.lib.nid, ca.policy, a.req, issuer);
    if !ok { return -1; }
    if ca.o.preserve { subject := a.req; }
    if !a.built { return -1; }
    if !ca.o.emailDn { subject := RemoveEmail(subject); }
    j := db.Issue(Cert(serial, ca.lib.oneline(subject), a.notAfter), a.consent);
  }

  /** certify (apps/ca.c:1373-1429): -1 for a request that does not load, 0 for one whose signature does not match. */
  method CertifyRequest(db: CaDb, ca: Ca, a: Application, serial: int) returns (j: int)
    requires db.Valid()
    modifies db
    ensures db.Valid()
    ensures !a.readable ==> j == -1 && db.View() == old(db.View())
    ensures a.readable && !a.verified ==> j == 0 && db.View() == old(db.View())
    ensures a.readable && a.verified && !Acceptable(ca, a) ==> j == -1 && db.View() == old(db.View())
    ensures a.readable && a.verified && Acceptable(ca, a) ==>
              (j, db.View()) == Certify(old(db.View()), CertOf(ca, a, serial), a.consent) &&
              IssueOutcome(old(db.View()), CertOf(ca, a, serial), a.consent, j, db.View())
  {
    hide IssueOutcome, Acceptable;
    if !a.readable { return -1; }
    if !a.verified { return 0; }
    j := DoBody(db, ca, a, serial);
  }

  /** With -preserveDN the subject is the request's name; without it, the request entries that the policy rules pick. */
  lemma {:induction false} SubjectExactly(lib: Lib, o: Options, policy: seq<Rule>, req: Name)
    requires o.emailDn
    ensures o.preserve ==> Subject(lib, o, policy, req) == req
    ensures !o.preserve ==> exists picks :: MadeOf(lib.nid, policy, req, Subject(lib, o, policy, req), picks)
  {
    hide MadeOf, Chosen, Numbered;
    if !o.preserve {
      ChosenMade(lib.nid, policy, req);
      var s := Numbered(Chosen(lib.nid, policy, req));
      assert Subject(lib, o, policy, req) == s;
      var picks :| MadeOf(lib.nid, policy, req, s, picks);
    }
  }

  /** Without email in the DN, the subject is exactly the non-email part of what would be the
      subject with it, and no email entry survives. */
  lemma {:induction false} SubjectWithoutEmail(lib: Lib, o: Options, policy: seq<Rule>, req: Name)
    returns (orig: seq<nat>)
    requires WellNumbered(req)
    ensures var full := Subject(lib, o.(emailDn := true), policy, req);
            var bare := Subject(lib, o.(emailDn := false), policy, req);
            Reduced(full, bare, orig) && WellNumbered(bare) &&
            (forall k: nat :: k in orig <==> k < |full| && full[k].obj != EMAIL) &&
            forall k :: 0 <= k < |bare| ==> bare[k].obj != EMAIL
  {
    var full := Subject(lib, o.(emailDn := true), policy, req);
    NumberedWell(Chosen(lib.nid, policy, req));
    orig := EmailsGone(full, 0);
    var bare := DropEmail(full, 0);
    forall k | 0 <= k < |bare|
      ensures bare[k].obj != EMAIL
    {
      assert orig[k] in orig && bare[k] == full[orig[k]].(rdn := bare[k].rdn);
    }
  }
}
