/** Authenticated variable services: certificate bookkeeping, recovery after a breakdown, the four
    authentication paths and the Secure Boot platform mode. */
module AuthVariable {
  import opened Bytes
  import opened Efi
  import opened CertDb
  import opened KeySearch
  import opened ListWalk
  import opened SignatureFormat
  import opened TimeStamp
  import opened VariableStore
  import SignatureFilter
  import SignatureList

  const SETUP_MODE := 1
  const USER_MODE := 0
  const CUSTOM_SECURE_BOOT_MODE := 1
  const STANDARD_SECURE_BOOT_MODE := 0
  const VENDOR_KEYS_VALID := 1
  const VENDOR_KEYS_MODIFIED := 0

  datatype Signers = Signers(stack: seq<byte>, signerCert: seq<byte>, topLevelCert: seq<byte>)

  /** What a signature is made over. */
  datatype Content = Content(v: Var, attrs: Attributes, time: Time, payload: seq<byte>)

  /** The cryptographic library, as functions nothing is assumed about. */
  datatype Crypto = Crypto(
    hashAlg: seq<byte> -> nat,
    signers: seq<byte> -> Option<Signers>,
    verify: (seq<byte>, seq<byte>, Content) -> bool,
    digest: (nat, seq<byte>, seq<byte>) -> Option<seq<byte>>,
    rules: Rules)

  /** A SetVariable payload with its EFI_VARIABLE_AUTHENTICATION_2 descriptor taken apart. */
  datatype Request = Request(time: Time, padsZero: bool, pkcs7: bool, sigData: seq<byte>, payload: seq<byte>)

  /** Conditions that may differ from call to call, among them what memory holds behind the payload and
      behind the data of a stored variable. */
  datatype Env = Env(userPresent: bool, policyEnabled: bool, scratchAvailable: bool,
                     behind: Memory, behindStored: (Var, nat) -> byte)
  {
    function BehindData(v: Var): Memory {
      (i: nat) => behindStored(v, i)
    }

    function AroundOf(v: Var): Around {
      Around(scratchAvailable, BehindData(v), behind)
    }
  }

  /** One time-based update. */
  datatype Step = Step(v: Var, request: Request, attrs: Attributes, authType: AuthVarType, env: Env)

  /** One call of SetVariable. */
  datatype Call = Call(v: Var, request: Request, attrs: Attributes, env: Env)

  datatype AuthVarType = AuthPk | AuthKek | AuthPriv | AuthPayload

  function HashSize(alg: nat): nat {
    if alg == 0 then 32 else if alg == 1 then 48 else 64
  }

  /** The first n bytes of a digest buffer that was zeroed before. */
  function Fit(d: seq<byte>, n: nat): (r: seq<byte>)
    ensures |r| == n
  {
    if |d| >= n then d[..n] else d + Zeros(n - |d|)
  }

  /** The nodes whose variable is stored as an authenticated one, in their order. */
  function Survivors(ns: seq<Node>, s: Store): seq<Node> {
    if ns == [] then [] else
      (if StoredPrivate(s, ns[0].key) then [ns[0]] else []) + Survivors(ns[1..], s)
  }

  // ----- what a request must show

  /** The format check, which looks at data of PK, KEK and the signature databases only. */
  function Format(c: Crypto, v: Var, payload: seq<byte>, env: Env): Verdict {
    if payload == [] || !(v.Pk? || IsSignatureDb(v)) then Accepted
    else Checked(c.rules, v.Pk?, Seen(payload, env.behind), Pos(0, |payload|, 0))
  }

  method CheckFormat(c: Crypto, v: Var, payload: seq<byte>, env: Env) returns (verdict: Verdict)
    ensures verdict == Format(c, v, payload, env)
  {
    hide Checked;
    if |payload| == 0 {
      return Accepted;
    }
    var isPk;
    if v.Pk? {
      isPk := true;
    } else if IsSignatureDb(v) {
      isPk := false;
    } else {
      return Accepted;
    }
    verdict := CheckSignatureListFormat(c.rules, isPk, Seen(payload, env.behind), |payload|);
  }

  /** Lists that take their headers are accepted exactly if they are what they should be; then a signature
      database gets well-formed lists. */
  lemma FormatOfLists(c: Crypto, v: Var, payload: seq<byte>, env: Env)
    requires 0 < |payload| < 0x1_0000_0000 && Whole(payload) && (v.Pk? || IsSignatureDb(v))
    ensures Format(c, v, payload, env) == Accepted <==> FormatOk(c.rules, v.Pk?, payload, env.behind)
    ensures Format(c, v, payload, env) == Accepted ==> SignatureList.Parse(payload).Some?
  {
    hide Checked, Whole;
    CheckExact(c.rules, v.Pk?, payload, env.behind);
    assert payload[0..] == payload;
  }

  /** Signed with the platform key itself: the key in front of its data. */
  predicate SignedByPk(c: Crypto, s: Store, r: Request, content: Content, env: Env) {
    match c.signers(r.sigData)
    case None => false
    case Some(sg) =>
      Pk in s && FirstKey(s[Pk].data, env.BehindData(Pk)) == sg.topLevelCert && c.verify(r.sigData, sg.topLevelCert, content)
  }

  /** With a list in front of PK that has a certificate, this takes that certificate and a signature it verifies. */
  lemma PkSignatureIs(c: Crypto, s: Store, r: Request, content: Content, env: Env, l: SignatureList.SigList)
    requires Pk in s && SignatureList.ParseOne(s[Pk].data) == Some(l) && l.sigs != [] && l.sigSize >= OWNER_SIZE
    ensures |l.sigs[0]| >= OWNER_SIZE
    ensures SignedByPk(c, s, r, content, env) <==>
              && c.signers(r.sigData).Some? && c.signers(r.sigData).value.topLevelCert == l.sigs[0][OWNER_SIZE..]
              && c.verify(r.sigData, l.sigs[0][OWNER_SIZE..], content)
  {
    hide FirstKey, SignatureList.ParseOne;
    SignatureList.ParseOneSound(s[Pk].data);
    ValidSigs(l);
    FirstKeyIs(s[Pk].data, env.BehindData(Pk), l);
  }

  /** The search of KEK for a key that the signature was made with. */
  function KekVerdict(c: Crypto, s: Store, r: Request, content: Content, env: Env): Verdict {
    if Kek !in s then Rejected
    else Scan(key => c.verify(r.sigData, key, content), Seen(s[Kek].data, env.BehindData(Kek)), |s[Kek].data| % 0x1_0000_0000)
  }

  /** In a KEK of well-formed lists it finds one exactly if some X.509 signature holds it. */
  lemma KekVerdictIsMembership(c: Crypto, s: Store, r: Request, content: Content, env: Env)
    requires Kek in s && |s[Kek].data| < 0x1_0000_0000
    requires SignatureList.Parse(s[Kek].data).Some? && KeysHaveOwners(SignatureList.Parse(s[Kek].data).value)
    ensures KekVerdict(c, s, r, content, env)
         == if Holds(key => c.verify(r.sigData, key, content), SignatureList.Parse(s[Kek].data).value) then Accepted else Rejected
  {
    hide Scan, Holds, SignatureList.Parse;
    ScanExact(key => c.verify(r.sigData, key, content), s[Kek].data, env.BehindData(Kek));
  }

  /** Signed with the certificate the payload brings along. */
  predicate SelfSigned(c: Crypto, r: Request, content: Content, env: Env) {
    c.verify(r.sigData, FirstKey(r.payload, env.behind), content)
  }

  /** With a list in front that has a certificate, this takes a signature that it verifies. */
  lemma SelfSignatureIs(c: Crypto, r: Request, content: Content, env: Env, l: SignatureList.SigList)
    requires SignatureList.ParseOne(r.payload) == Some(l) && l.sigs != [] && l.sigSize >= OWNER_SIZE
    ensures |l.sigs[0]| >= OWNER_SIZE
    ensures SelfSigned(c, r, content, env) <==> c.verify(r.sigData, l.sigs[0][OWNER_SIZE..], content)
  {
    hide FirstKey, SignatureList.ParseOne;
    SignatureList.ParseOneSound(r.payload);
    ValidSigs(l);
    FirstKeyIs(r.payload, env.behind, l);
  }

  /** Signed by its own signer, who is the one on record where the variable is already stored. */
  predicate SignedBySameSigner(c: Crypto, s: Store, k: Key, stored: bool, nonVolatile: bool, r: Request, content: Content) {
    match c.signers(r.sigData)
    case None => false
    case Some(sg) => (stored ==> SignerOnRecord(c, s, k, nonVolatile, r, sg)) && c.verify(r.sigData, sg.topLevelCert, content)
  }

  /** The recorded certificate data is the digest of the signer's certificates, or in the older format
      the whole stack of them. */
  predicate SignerOnRecord(c: Crypto, s: Store, k: Key, nonVolatile: bool, r: Request, sg: Signers) {
    match Lookup(Nodes(s, DbFor(nonVolatile)), k)
    case None => false
    case Some(recorded) =>
      DbFor(nonVolatile) in s && RecordMatches(c, recorded, r, sg)
  }

  predicate RecordMatches(c: Crypto, recorded: seq<byte>, r: Request, sg: Signers) {
    var alg := c.hashAlg(r.sigData);
    if alg < 3 && |recorded| == HashSize(alg) then
      var d := c.digest(alg, sg.signerCert, sg.topLevelCert);
      d.Some? && Fit(d.value, HashSize(alg)) == recorded
    else
      recorded == sg.stack
  }

  /** Certificate data is a digest of 32, 48 or 64 bytes, or what there is of it in front of zeros. */
  ghost predicate IsDigest(recorded: seq<byte>, alg: nat, d: seq<byte>) {
    && |recorded| == (if alg == 0 then 32 else if alg == 1 then 48 else 64)
    && forall i :: 0 <= i < |recorded| ==> recorded[i] == if i < |d| then d[i] else 0
  }

  /** The signer of a request is on record for a key: the digest of its certificates is. */
  ghost predicate RecordedFor(c: Crypto, recorded: Option<seq<byte>>, r: Request) {
    && recorded.Some? && c.signers(r.sigData).Some?
    && var sg := c.signers(r.sigData).value;
       var d := c.digest(c.hashAlg(r.sigData), sg.signerCert, sg.topLevelCert);
       d.Some? && IsDigest(recorded.value, c.hashAlg(r.sigData), d.value)
  }

  /** A stored variable takes signatures by the signer on record only. */
  lemma SignerIsOnRecord(c: Crypto, s: Store, k: Key, nonVolatile: bool, r: Request, content: Content)
    requires DbFor(nonVolatile) in s && c.hashAlg(r.sigData) < 3
    requires var recorded := Lookup(Nodes(s, DbFor(nonVolatile)), k);
      recorded.Some? ==> |recorded.value| == (if c.hashAlg(r.sigData) == 0 then 32 else if c.hashAlg(r.sigData) == 1 then 48 else 64)
    ensures SignedBySameSigner(c, s, k, true, nonVolatile, r, content) <==>
              && RecordedFor(c, Lookup(Nodes(s, DbFor(nonVolatile)), k), r)
              && c.verify(r.sigData, c.signers(r.sigData).value.topLevelCert, content)
  {
    hide Nodes, Lookup;
    var recorded := Lookup(Nodes(s, DbFor(nonVolatile)), k);
    if recorded.Some? && c.signers(r.sigData).Some? {
      var sg := c.signers(r.sigData).value;
      var d := c.digest(c.hashAlg(r.sigData), sg.signerCert, sg.topLevelCert);
      if d.Some? {
        FitIs(d.value, recorded.value, c.hashAlg(r.sigData));
      }
    }
  }

  lemma FitIs(d: seq<byte>, recorded: seq<byte>, alg: nat)
    requires alg < 3
    ensures recorded == Fit(d, HashSize(alg)) <==> IsDigest(recorded, alg, d)
  {
    var f := Fit(d, HashSize(alg));
    assert forall i :: 0 <= i < |f| ==> f[i] == if i < |d| then d[i] else 0;
    if IsDigest(recorded, alg, d) {
      assert |recorded| == |f|;
    }
  }

  lemma NewRecord(c: Crypto, ns: seq<Node>, k: Key, r: Request)
    requires !HasKey(ns, k) && c.signers(r.sigData).Some? && c.hashAlg(r.sigData) < 3
    requires var sg := c.signers(r.sigData).value; c.digest(c.hashAlg(r.sigData), sg.signerCert, sg.topLevelCert).Some?
    ensures var sg := c.signers(r.sigData).value;
      var d := c.digest(c.hashAlg(r.sigData), sg.signerCert, sg.topLevelCert).value;
      RecordedFor(c, Lookup(ns + [Node(k, Fit(d, HashSize(c.hashAlg(r.sigData))))], k), r)
  {
    var sg := c.signers(r.sigData).value;
    var d := c.digest(c.hashAlg(r.sigData), sg.signerCert, sg.topLevelCert).value;
    var n := Node(k, Fit(d, HashSize(c.hashAlg(r.sigData))));
    IndexOfAppend(ns, n, k);
    FitIs(d, n.cert, c.hashAlg(r.sigData));
  }

  /** Empty, or lists that take their headers. */
  predicate TakesLists(payload: seq<byte>) {
    payload == [] || (|payload| < 0x1_0000_0000 && Whole(payload))
  }

  /** Everything a request shows before its signature is looked at. */
  predicate WellFormedRequest(c: Crypto, r: Request, attrs: Attributes, orgTime: Option<Time>) {
    && r.padsZero
    && (orgTime.Some? && !attrs.append ==> !NotLater(r.time, orgTime.value))
    && r.pkcs7
    && (attrs.timeAuth ==> c.hashAlg(r.sigData) < 3)
  }

  function Authentication(c: Crypto, s: Store, v: Var, r: Request, attrs: Attributes, authType: AuthVarType, stored: bool, env: Env): Verdict {
    var content := Content(v, attrs, r.time, r.payload);
    match authType
    case AuthPk => if SignedByPk(c, s, r, content, env) then Accepted else Rejected
    case AuthKek => KekVerdict(c, s, r, content, env)
    case AuthPayload => if SelfSigned(c, r, content, env) then Accepted else Rejected
    case AuthPriv => if v.Private? && SignedBySameSigner(c, s, v.key, stored, attrs.nonVolatile, r, content) then Accepted else Rejected
  }

  predicate Authentic(c: Crypto, s: Store, v: Var, r: Request, attrs: Attributes, authType: AuthVarType, stored: bool, env: Env) {
    Authentication(c, s, v, r, attrs, authType, stored, env) == Accepted
  }

  /** No certificate verifies the signature of a request. */
  ghost predicate Unverifiable(c: Crypto, v: Var, r: Request, attrs: Attributes) {
    forall cert :: !c.verify(r.sigData, cert, Content(v, attrs, r.time, r.payload))
  }

  /** Such a request is authentic for no kind of variable. */
  lemma NobodySigned(c: Crypto, s: Store, v: Var, r: Request, attrs: Attributes, authType: AuthVarType, stored: bool, env: Env)
    requires Unverifiable(c, v, r, attrs)
    ensures Authentication(c, s, v, r, attrs, authType, stored, env) != Accepted
  {
    hide Scan;
    if authType.AuthKek? && Kek in s {
      NoKeyPasses(key => c.verify(r.sigData, key, Content(v, attrs, r.time, r.payload)), Seen(s[Kek].data, env.BehindData(Kek)),
                  |s[Kek].data| % 0x1_0000_0000);
    }
  }

  /** With the policy engine off, any authenticated variable may be deleted unsigned. */
  predicate UnsignedDelete(r: Request, attrs: Attributes, env: Env) {
    r.payload == [] && !attrs.append && !env.policyEnabled
  }

  /** A request as the verification is to let it through. */
  predicate Passing(c: Crypto, s: Store, v: Var, r: Request, attrs: Attributes, authType: AuthVarType, env: Env) {
    && WellFormedRequest(c, r, attrs, if v in s then Some(s[v].time) else None)
    && (UnsignedDelete(r, attrs, env) || (env.scratchAvailable && Authentic(c, s, v, r, attrs, authType, v in s, env)))
    && Format(c, v, r.payload, env) == Accepted
  }

  /** What that comes to: nothing is missing in the descriptor, the time is later than the stored one unless
      the data is appended, and the signature is authentic unless the policy engine is off and the data deleted. */
  lemma PassingIs(c: Crypto, s: Store, v: Var, r: Request, attrs: Attributes, authType: AuthVarType, env: Env)
    ensures Passing(c, s, v, r, attrs, authType, env) <==>
              && r.padsZero && r.pkcs7 && (attrs.timeAuth ==> c.hashAlg(r.sigData) <= 2)
              && (v in s && !attrs.append ==> Stamp(s[v].time) < Stamp(r.time))
              && ((r.payload == [] && !attrs.append && !env.policyEnabled)
                  || (env.scratchAvailable && Authentic(c, s, v, r, attrs, authType, v in s, env)))
              && Format(c, v, r.payload, env) == Accepted
  {
    hide Authentic, Format, Stamp, NotLater;
    if v in s {
      NotLaterIsOrderOfTime(r.time, s[v].time);
    }
  }

  /** A request in whose verification the code divides by zero or never leaves a loop. */
  predicate NeverVerified(c: Crypto, s: Store, v: Var, r: Request, attrs: Attributes, authType: AuthVarType, env: Env) {
    && WellFormedRequest(c, r, attrs, if v in s then Some(s[v].time) else None)
    && !UnsignedDelete(r, attrs, env) && env.scratchAvailable
    && match Authentication(c, s, v, r, attrs, authType, v in s, env)
       case Accepted => Format(c, v, r.payload, env) == NoAnswer
       case NoAnswer => true
       case Rejected => false
  }

  /** With the policy engine on it does not pass. */
  lemma UnsignedFails(c: Crypto, s: Store, v: Var, r: Request, attrs: Attributes, authType: AuthVarType, env: Env)
    requires Unverifiable(c, v, r, attrs) && env.policyEnabled
    ensures !Passing(c, s, v, r, attrs, authType, env)
  {
    hide WellFormedRequest, Authentication, Format, Unverifiable;
    NobodySigned(c, s, v, r, attrs, authType, v in s, env);
  }

  lemma Outcomes(c: Crypto, s: Store, v: Var, r: Request, attrs: Attributes, authType: AuthVarType, env: Env)
    ensures var wf := WellFormedRequest(c, r, attrs, if v in s then Some(s[v].time) else None);
      var a, f, u := Authentication(c, s, v, r, attrs, authType, v in s, env), Format(c, v, r.payload, env), UnsignedDelete(r, attrs, env);
      && (Passing(c, s, v, r, attrs, authType, env) <==> wf && (u || (env.scratchAvailable && a == Accepted)) && f == Accepted)
      && (NeverVerified(c, s, v, r, attrs, authType, env) <==>
            wf && !u && env.scratchAvailable && (a == NoAnswer || (a == Accepted && f == NoAnswer)))
  {
    hide WellFormedRequest, Authentication, Format;
  }

  lemma PassingOrNever(c: Crypto, s: Store, v: Var, r: Request, attrs: Attributes, authType: AuthVarType, env: Env)
    ensures !(Passing(c, s, v, r, attrs, authType, env) && NeverVerified(c, s, v, r, attrs, authType, env))
  {
    hide WellFormedRequest, Authentication, Format;
  }

  /** Where payload, KEK and the stored variable consist of lists that take their headers, nothing is left
      without an answer: not the verification, not the format check, and not the filter of an append. */
  lemma WholeReturns(c: Crypto, s: Store, v: Var, r: Request, attrs: Attributes, authType: AuthVarType, env: Env)
    requires Whole(r.payload) && (v in s && IsSignatureDb(v) ==> Whole(s[v].data))
    requires Kek in s ==> Whole(s[Kek].data) && |s[Kek].data| < 0x1_0000_0000
    ensures Format(c, v, r.payload, env) != NoAnswer && !NeverVerified(c, s, v, r, attrs, authType, env)
    ensures DataFor(Find(s, v), v, r.payload, attrs, env.AroundOf(v)).Done?
  {
    hide Whole, Checked, Scan, SignatureFilter.FilterBytes, WellFormedRequest, SignedByPk, SelfSigned, SignedBySameSigner;
    assert r.payload[0..] == r.payload;
    WholeIsChecked(c.rules, v.Pk?, r.payload, env.behind, 0, 0);
    if Kek in s {
      WholeIsScanned(key => c.verify(r.sigData, key, Content(v, attrs, r.time, r.payload)), s[Kek].data, env.BehindData(Kek));
    }
    if v in s && IsSignatureDb(v) {
      SignatureFilter.WholeIsFiltered(Buffer(s[v].data, env.BehindData(v)), Buffer(r.payload, env.behind));
    }
  }

  /** The signer of a request can be recorded for a new variable. */
  predicate CanRecordSigner(c: Crypto, s: Store, k: Key, attrs: Attributes, r: Request, max: nat) {
    match c.signers(r.sigData)
    case None => false
    case Some(sg) => CanRecord(c, s, k, attrs.nonVolatile, c.hashAlg(r.sigData), sg, max)
  }

  lemma SameRecord(c: Crypto, s: Store, k: Key, nonVolatile: bool, alg: nat, sg: Signers, max: nat)
    ensures CanRecord(c, s, k, nonVolatile, alg, sg, max)
       <==> CanRecord(c, s, k, nonVolatile, alg, Signers([], sg.signerCert, sg.topLevelCert), max)
  {
  }

  /** A new node can be recorded for a key. */
  predicate CanRecord(c: Crypto, s: Store, k: Key, nonVolatile: bool, alg: nat, sg: Signers, max: nat) {
    && alg < 3 && DbFor(nonVolatile) in s && !HasKey(Nodes(s, DbFor(nonVolatile)), k)
    && |s[DbFor(nonVolatile)].data| + NODE_HEADER_SIZE + HashSize(alg) + 2 * |k.name| <= max
    && c.digest(alg, sg.signerCert, sg.topLevelCert).Some?
  }

  /** The record of a key can be dropped: it is there, or the database is empty. */
  predicate CanDropRecord(s: Store, k: Key, nonVolatile: bool) {
    DbFor(nonVolatile) in s && (Nodes(s, DbFor(nonVolatile)) == [] || HasKey(Nodes(s, DbFor(nonVolatile)), k))
  }

  /** The record of a stored variable always can. */
  lemma RecordedCanBeDropped(s: Store, k: Key, max: nat)
    requires Consistent(s, max) && StoredPrivate(s, k)
    ensures CanDropRecord(s, k, s[Private(k)].attrs.nonVolatile)
  {
    NoKeyInNone(k);
  }

  /** The bookkeeping that goes with a request to a common variable can be done: a new variable's signer
      is recorded, a deleted one's is dropped. */
  predicate CanKeepRecords(c: Crypto, s: Store, k: Key, r: Request, attrs: Attributes, max: nat) {
    if r.payload != [] then Private(k) in s || CanRecordSigner(c, s, k, attrs, r, max)
    else Private(k) in s && (attrs.append || CanDropRecord(s, k, attrs.nonVolatile))
  }

  predicate CustomModeOn(s: Store) {
    CustomMode in s && s[CustomMode].data != [] && s[CustomMode].data[0] == CUSTOM_SECURE_BOOT_MODE
  }

  /** The second chance of a request to a signature database: in user mode a KEK signature, unless someone
      is present in custom mode; otherwise only its format counts. */
  function KekStep(c: Crypto, s: Store, mode: nat, atRuntime: bool, v: Var, r: Request, attrs: Attributes, env: Env): Verdict {
    if mode == USER_MODE && !(CustomModeOn(s) && env.userPresent) then
      if atRuntime then Rejected
      else if Passing(c, s, v, r, attrs, AuthKek, env) then Accepted
      else if NeverVerified(c, s, v, r, attrs, AuthKek, env) then NoAnswer
      else Rejected
    else Format(c, v, r.payload, env)
  }

  /** User mode with the policy engine on, and nobody present in custom mode. */
  ghost predicate Guarded(s: Store, mode: nat, env: Env) {
    && mode == USER_MODE && env.policyEnabled
    && (env.userPresent ==> CustomMode !in s || s[CustomMode].data == [] || s[CustomMode].data[0] != CUSTOM_SECURE_BOOT_MODE)
  }

  lemma GuardedKek(c: Crypto, s: Store, mode: nat, atRuntime: bool, v: Var, r: Request, attrs: Attributes, env: Env)
    ensures Guarded(s, mode, env) && Unverifiable(c, v, r, attrs) ==> KekStep(c, s, mode, atRuntime, v, r, attrs, env) != Accepted
  {
    hide Passing, NeverVerified, Unverifiable;
    if Guarded(s, mode, env) && Unverifiable(c, v, r, attrs) {
      UnsignedFails(c, s, v, r, attrs, AuthKek, env);
    }
  }

  /** What nobody changes without a signature: the keys, the signature databases, the switches, the reports,
      the certificate databases, and every authenticated variable. */
  ghost predicate Protected(s: Store, w: Var) {
    !w.Private? || (w in s && (w.Private? ==> s[w].attrs.timeAuth || s[w].attrs.counterAuth))
  }

  /** Everything protected is as it was, and no authenticated variable has come. */
  ghost predicate Untouched(s: Store, t: Store) {
    && (forall w :: Protected(s, w) ==> Find(t, w) == Find(s, w))
    && (forall k :: StoredPrivate(t, k) ==> StoredPrivate(s, k))
  }

  /** A call by nobody who is present, with the policy engine on and a signature that nothing verifies. */
  ghost predicate Unsigned(c: Crypto, call: Call) {
    call.env.policyEnabled && !call.env.userPresent && Unverifiable(c, call.v, call.request, call.attrs)
  }

  lemma UntouchedIfSame(s: Store, t: Store)
    ensures s == t ==> Untouched(s, t)
  {
  }

  /** A step that leaves all others, and its own variable if that is protected. */
  lemma OneUntouched(s: Store, t: Store, v: Var)
    requires forall w :: w != v ==> (w in s <==> w in t) && (w in s ==> t[w] == s[w])
    requires Protected(s, v) ==> Find(t, v) == Find(s, v)
    requires v.Private? && StoredPrivate(t, v.key) ==> StoredPrivate(s, v.key)
    ensures Untouched(s, t)
  {
    forall k | StoredPrivate(t, k)
      ensures StoredPrivate(s, k)
    {
      assert Private(k) != v ==> Private(k) in s && s[Private(k)] == t[Private(k)];
    }
  }

  lemma UntouchedTwice(s: Store, t: Store, u: Store)
    requires Untouched(s, t) && Untouched(t, u)
    ensures Untouched(s, u)
  {
    forall w | Protected(s, w)
      ensures Find(u, w) == Find(s, w)
    {
      assert Find(t, w) == Find(s, w);
      assert Protected(t, w);
    }
  }

  /** "SecureBoot" and "SecureBootEnable" after the mode has changed. */
  ghost predicate SecureBootSwitched(before: Store, after: Store, mode: nat) {
    var on := SecureBoot in before && mode == USER_MODE;
    && Find(after, SecureBoot) == Some(Variable([if on then 1 else 0], BS_RT, ZERO))
    && Find(after, SecureBootEnable) == if on then Some(Variable([1], NV_BS, ZERO)) else None
  }

  lemma SwitchedSame(before: Store, before': Store, after: Store, mode: nat)
    requires SecureBoot in before <==> SecureBoot in before'
    ensures SecureBootSwitched(before, after, mode) ==> SecureBootSwitched(before', after, mode)
  {
  }

  /** A signer's record in a database is that of a variable stored there. */
  predicate RecordIsKept(s: Store, k: Key, nonVolatile: bool) {
    HasKey(Nodes(s, DbFor(nonVolatile)), k) ==> StoredPrivate(s, k) && s[Private(k)].attrs.nonVolatile == nonVolatile
  }

  /** No record came to a database but that of one key. */
  ghost predicate OnlyRecord(s: Store, t: Store, k: Key, db: Var) {
    forall j :: j != k && HasKey(Nodes(t, db), j) ==> HasKey(Nodes(s, db), j)
  }

  /** In both databases the records are exactly those of the variables stored there. */
  ghost predicate RecordsInStep(s: Store) {
    forall k, nonVolatile :: HasKey(Nodes(s, DbFor(nonVolatile)), k) <==>
                             StoredPrivate(s, k) && s[Private(k)].attrs.nonVolatile == nonVolatile
  }

  lemma InStepKeeps(s: Store, k: Key, nonVolatile: bool)
    ensures RecordsInStep(s) ==> RecordIsKept(s, k, nonVolatile)
  {
    hide Nodes, HasKey;
  }

  /** A step for one variable, after which its record is still that of a stored variable. */
  lemma StillInStep(s: Store, t: Store, k: Key, nonVolatile: bool, max: nat)
    requires Consistent(t, max) && OnlyRecord(s, t, k, DbFor(nonVolatile))
    requires forall w :: w != Private(k) && w != DbFor(nonVolatile) ==> Find(t, w) == Find(s, w)
    ensures RecordsInStep(s) && RecordIsKept(t, k, nonVolatile)
            && (Private(k) in s ==> s[Private(k)].attrs.nonVolatile == nonVolatile) ==>
              RecordsInStep(t)
  {
    hide HasKey, Nodes, DbOk, ValidKeys;
    if RecordsInStep(s) && RecordIsKept(t, k, nonVolatile) && (Private(k) in s ==> s[Private(k)].attrs.nonVolatile == nonVolatile) {
      NodesSame(t, s, DbFor(!nonVolatile));
      forall j, nv
        ensures HasKey(Nodes(t, DbFor(nv)), j) <==> StoredPrivate(t, j) && t[Private(j)].attrs.nonVolatile == nv
      {
        assert j != k ==> Find(t, Private(j)) == Find(s, Private(j));
        assert HasKey(Nodes(s, DbFor(nv)), j) <==> StoredPrivate(s, j) && s[Private(j)].attrs.nonVolatile == nv;
        assert StoredPrivate(t, j) ==> HasKey(Nodes(t, DbFor(t[Private(j)].attrs.nonVolatile)), j);
      }
    }
  }

  /** A step that touches neither common variables nor certificate databases. */
  lemma InStepApart(s: Store, t: Store)
    requires forall w: Var :: w.Private? || IsCertDb(w) ==> Find(t, w) == Find(s, w)
    ensures RecordsInStep(s) ==> RecordsInStep(t)
  {
    hide HasKey, Nodes;
    NodesSame(t, s, CertDbNv);
    NodesSame(t, s, CertDbVolatile);
    forall k, nonVolatile
      ensures HasKey(Nodes(t, DbFor(nonVolatile)), k) <==> HasKey(Nodes(s, DbFor(nonVolatile)), k)
      ensures StoredPrivate(t, k) <==> StoredPrivate(s, k)
      ensures StoredPrivate(t, k) ==> t[Private(k)] == s[Private(k)]
    {
      assert Find(t, Private(k)) == Find(s, Private(k));
    }
  }

  /** The attributes given for a variable are those it is stored with. */
  predicate StoredWith(s: Store, v: Var, attrs: Attributes) {
    v in s ==> s[v].attrs.(append := false) == attrs.(append := false)
  }

  /** The attributes given for a common variable are the same in all requests of a run, and those it is
      stored with. */
  ghost predicate FixedAttributes(s: Store, requests: seq<Call>) {
    && (forall c :: c in requests && c.v.Private? ==> StoredWith(s, c.v, c.attrs))
    && (forall c, d :: c in requests && d in requests && c.v.Private? && c.v == d.v ==>
          c.attrs.(append := false) == d.attrs.(append := false))
  }

  lemma StillFixed(s: Store, t: Store, requests: seq<Call>, c: Call)
    requires c in requests && forall w: Var :: w.Private? && w != c.v ==> Find(t, w) == Find(s, w)
    requires c.v.Private? && StoredWith(s, c.v, c.attrs) ==> StoredWith(t, c.v, c.attrs)
    ensures FixedAttributes(s, requests) ==> FixedAttributes(t, requests)
  {
    if FixedAttributes(s, requests) {
      forall d | d in requests && d.v.Private?
        ensures StoredWith(t, d.v, d.attrs)
      {
        assert d.v != c.v ==> Find(t, d.v) == Find(s, d.v);
      }
    }
  }

  /** What the named variables are after a boot. */
  ghost predicate Reports(before: Store, after: Store, support: seq<byte>, bootConfigPolicy: Option<nat>) {
    && Find(after, SetupMode) == Some(Variable([if Pk in after then USER_MODE else SETUP_MODE], BS_RT, ZERO))
    && Find(after, SignatureSupport) == Some(Variable(support, BS_RT, ZERO))
    && Find(after, CustomMode) == Some(Variable([STANDARD_SECURE_BOOT_MODE], NV_BS, ZERO))
    && Find(after, SecureBoot) == Some(Variable([if Pk in after && bootConfigPolicy != Some(0) then 1 else 0], BS_RT, ZERO))
    && if Pk in after
       then SecureBootEnable in after && after[SecureBootEnable].data == [if bootConfigPolicy == Some(0) then 0 else 1]
       else Find(after, SecureBootEnable) == Find(before, SecureBootEnable)
  }

  lemma ReportsKept(before: Store, s: Store, t: Store, support: seq<byte>, bootConfigPolicy: Option<nat>)
    requires forall v :: v in {Pk, SetupMode, SignatureSupport, CustomMode, SecureBoot, SecureBootEnable} ==>
               (v in s <==> v in t) && (v in s ==> s[v] == t[v])
    ensures Reports(before, s, support, bootConfigPolicy) ==> Reports(before, t, support, bootConfigPolicy)
  {
    assert {Pk, SetupMode, SignatureSupport, CustomMode, SecureBoot, SecureBootEnable}
        == {Pk} + {SetupMode, SignatureSupport, CustomMode, SecureBoot, SecureBootEnable};
  }

  lemma VendorStateKept(before: Store, before': Store, after: Store, state: byte)
    requires (VendorKeysNv in before <==> VendorKeysNv in before') && (VendorKeysNv in before ==> before[VendorKeysNv] == before'[VendorKeysNv])
    ensures VendorState(before, after, state) ==> VendorState(before', after, state)
  {
  }

  /** The state of the vendor's keys is what was stored, or valid at the first boot. */
  ghost predicate VendorState(before: Store, after: Store, state: byte) {
    && (VendorKeysNv in before && before[VendorKeysNv].data != [] ==> state == before[VendorKeysNv].data[0])
    && (VendorKeysNv !in before ==> state == VENDOR_KEYS_VALID && Find(after, VendorKeysNv) == Some(Variable([state], NV_BS_AT, ZERO)))
    && (VendorKeysNv in before ==> Find(after, VendorKeysNv) == Find(before, VendorKeysNv))
    && Find(after, VariableStore.Var.VendorKeys) == Some(Variable([state], BS_RT, ZERO))
  }

  class AuthVariables {
    const crypto: Crypto
    const mergeTime: (Time, Time) -> Time
    const requireSelfSignedPk: bool
    const enforceSelfSignedPk: bool
    const signatureSupport: seq<byte>
    const maxCertDbSize: nat
    const certDbStore: array<byte>

    var store: Store
    var platformMode: nat
    var vendorKeyState: byte
    var atRuntime: bool
    var faults: nat // how many store writes are still going to fail
    var shortages: nat // how many allocations are still going to fail

    ghost var history: seq<Write> // all writes since the first boot of the platform

    ghost predicate Valid()
      reads this
    {
      && 4 <= maxCertDbSize < 0x8000_0000 && certDbStore.Length == maxCertDbSize && signatureSupport != []
      && Legal(history, maxCertDbSize) && store == Replay(history, maxCertDbSize)
    }

    /** A boot, on what a run of writes that may have been cut short anywhere left in the store. */
    constructor Boot(crypto: Crypto, mergeTime: (Time, Time) -> Time, requireSelfSignedPk: bool, enforceSelfSignedPk: bool,
                     signatureSupport: seq<byte>, maxCertDbSize: nat, flash: Store, faults: nat, shortages: nat, ghost past: seq<Write>)
      requires signatureSupport != [] && 4 <= maxCertDbSize < 0x8000_0000 && Legal(past, maxCertDbSize)
      requires flash == NonVolatile(Replay(past, maxCertDbSize))
      ensures Valid() && history == past + [Reboot] && fresh(certDbStore) && store == flash && !atRuntime
      ensures this.faults == faults && this.shortages == shortages
      ensures this.signatureSupport == signatureSupport && this.maxCertDbSize == maxCertDbSize && this.crypto == crypto && this.mergeTime == mergeTime
      ensures this.requireSelfSignedPk == requireSelfSignedPk && this.enforceSelfSignedPk == enforceSelfSignedPk
    {
      this.crypto, this.mergeTime := crypto, mergeTime;
      this.requireSelfSignedPk, this.enforceSelfSignedPk := requireSelfSignedPk, enforceSelfSignedPk;
      this.signatureSupport, this.maxCertDbSize, this.certDbStore := signatureSupport, maxCertDbSize, new byte[maxCertDbSize];
      this.store, this.history := flash, past + [Reboot];
      this.faults, this.shortages := faults, shortages;
      platformMode, vendorKeyState, atRuntime := SETUP_MODE, VENDOR_KEYS_VALID, false;
      LegalStep(past, Reboot, maxCertDbSize);
    }

    lemma ValidConsistent()
      requires Valid()
      ensures Consistent(store, maxCertDbSize)
    {
      RunIsConsistent(history, maxCertDbSize);
    }

    // ----- single store accesses

    /** UpdateVariable. The write may fail in the store, and then changes nothing. */
    method UpdateVariable(v: Var, data: seq<byte>, attrs: Attributes, time: Time, ghost w: Write) returns (status: Status)
      requires Valid()
      requires var o := Update(Find(store, v), data, attrs, time, mergeTime);
        o != Refused ==> Allowed(store, w, maxCertDbSize) && Apply(store, w, maxCertDbSize) == Result(store, v, o)
      modifies this`store, this`faults, this`history
      ensures Valid() && old(history) <= history && faults <= old(faults)
      ensures var o := Update(Find(old(store), v), data, attrs, time, mergeTime);
        && (status == Success <==> o != Refused && faults == old(faults))
        && (status == Success ==> store == Result(old(store), v, o))
      ensures status != Success ==> store == old(store)
      ensures status != Success && faults == old(faults) ==> status == NotFound
      ensures status != NoReturn
    {
      hide Legal, Replay, Allowed, Apply;
      var fail := *;
      if fail && faults > 0 {
        faults := faults - 1;
        return DeviceError;
      }
      match Update(Find(store, v), data, attrs, time, mergeTime)
      case Refused =>
        return NotFound;
      case Deleted =>
        LegalStep(history, w, maxCertDbSize);
        store, history := store - {v}, history + [w];
        return Success;
      case Stored(x) =>
        LegalStep(history, w, maxCertDbSize);
        store, history := store[v := x], history + [w];
        return Success;
    }

    // ----- certificate bookkeeping

    /** Only the database of one storage may have changed. */
    twostate predicate OnlyDbChanged(db: Var)
      reads this
    {
      forall v :: v != db ==> Find(store, v) == Find(old(store), v)
    }

    twostate lemma OnlyDbIsUnchanged(db: Var)
      requires OnlyDbChanged(db)
      ensures Unchanged({db})
    {
      forall v | v != db
        ensures (v in store <==> v in old(store)) && (v in store ==> store[v] == old(store)[v])
      {
        assert Find(store, v) == Find(old(store), v);
      }
    }

    /** GetCertsFromDb: the certificate data bound to a variable. */
    method GetCertsFromDb(k: Key, nonVolatile: bool) returns (status: Status, certs: seq<byte>)
      requires Valid() && ValidKey(k)
      ensures status == Success <==> DbFor(nonVolatile) in store && HasKey(Nodes(store, DbFor(nonVolatile)), k)
      ensures status == Success ==> Some(certs) == Lookup(Nodes(store, DbFor(nonVolatile)), k)
    {
      hide Legal, Replay, CertDb.Parse, IndexOf, ReadLe32, OffsetOf;
      ValidConsistent();
      certs := [];
      var db := DbFor(nonVolatile);
      if db !in store {
        return NotFound, [];
      }
      var data := store[db].data;
      var certOffset, certDataSize, certNodeOffset, certNodeSize;
      status, certOffset, certDataSize, certNodeOffset, certNodeSize := FindCertsFromDb(k, data);
      if status == Success {
        certs := data[certOffset..certOffset + certDataSize];
      }
    }

    /** DeleteCertsFromDb: take the node of a variable out, unless the database is empty. */
    method DeleteCertsFromDb(k: Key, nonVolatile: bool) returns (status: Status)
      requires Valid() && ValidKey(k)
      requires StoredPrivate(store, k) ==> store[Private(k)].attrs.nonVolatile != nonVolatile
      modifies this`store, this`faults, this`history, certDbStore
      ensures Valid() && old(history) <= history && faults <= old(faults)
      ensures OnlyDbChanged(DbFor(nonVolatile))
      ensures status != Success ==> store == old(store)
      ensures status == Success ==>
        DbFor(nonVolatile) in store &&
        Nodes(store, DbFor(nonVolatile)) == Remove(old(Nodes(store, DbFor(nonVolatile))), k)
      ensures faults == old(faults) ==> (status == Success <==> CanDropRecord(old(store), k, nonVolatile))
      ensures status != NoReturn
    {
      hide Legal, Replay, CertDb.Parse, IndexOf, ReadLe32, OffsetOf, DeleteBytes, NodeRemoved, Node.Valid;
      ValidConsistent();
      var db := DbFor(nonVolatile);
      if db !in store {
        return NotFound;
      }
      var data := store[db].data;
      NoNodesIsEmpty(data);
      if |data| == 4 {
        EmptyDbHasNoNodes(data);
        return Success;
      }
      var certOffset, certDataSize, certNodeOffset, certNodeSize;
      status, certOffset, certDataSize, certNodeOffset, certNodeSize := FindCertsFromDb(k, data);
      if status != Success {
        return;
      }
      NodeRemovedIs(data, k);
      var newCertDbSize := BuildDeleted(certDbStore, data, certNodeOffset, certNodeSize);
      NodesAfter(store, DropNode(db, k), maxCertDbSize);
      status := UpdateVariable(db, certDbStore[..newCertDbSize], DbAttributes(db), ZERO, DropNode(db, k));
    }

    /** InsertCertsToDb: bind a variable to the digest of its signer's certificates. */
    method InsertCertsToDb(hashAlgId: nat, k: Key, nonVolatile: bool, signerCert: seq<byte>, topLevelCert: seq<byte>)
      returns (status: Status)
      requires Valid() && ValidKey(k)
      modifies this`store, this`faults, this`history, certDbStore
      ensures Valid() && old(history) <= history && faults <= old(faults)
      ensures OnlyDbChanged(DbFor(nonVolatile))
      ensures status != Success ==> store == old(store)
      ensures status == Success ==>
        var digest := crypto.digest(hashAlgId, signerCert, topLevelCert);
        && hashAlgId < 3 && digest.Some? && DbFor(nonVolatile) in store
        && !HasKey(old(Nodes(store, DbFor(nonVolatile))), k)
        && Nodes(store, DbFor(nonVolatile))
           == old(Nodes(store, DbFor(nonVolatile))) + [Node(k, Fit(digest.value, HashSize(hashAlgId)))]
      ensures hashAlgId < 3 && HasKey(old(Nodes(store, DbFor(nonVolatile))), k) ==> status == AccessDenied
      ensures status == Success ==> faults == old(faults)
      ensures faults == old(faults) ==>
        (status == Success <==>
          CanRecord(crypto, old(store), k, nonVolatile, hashAlgId, Signers([], signerCert, topLevelCert), maxCertDbSize))
    {
      hide Legal, Replay, CertDb.Parse, IndexOf, ReadLe32, OffsetOf, InsertBytes;
      ValidConsistent();
      if hashAlgId >= 3 {
        return InvalidParameter;
      }
      var db := DbFor(nonVolatile);
      if db !in store {
        NoKeyInNone(k);
        return NotFound;
      }
      var data := store[db].data;
      var certOffset, certDataSize, certNodeOffset, certNodeSize;
      status, certOffset, certDataSize, certNodeOffset, certNodeSize := FindCertsFromDb(k, data);
      if status == Success {
        return AccessDenied;
      }
      certNodeSize := NODE_HEADER_SIZE + HashSize(hashAlgId) + 2 * |k.name|;
      if |data| + certNodeSize > maxCertDbSize {
        return OutOfResources;
      }
      var digest := crypto.digest(hashAlgId, signerCert, topLevelCert);
      if digest.None? {
        return DeviceError;
      }
      var node := Node(k, Fit(digest.value, HashSize(hashAlgId)));
      var newCertDbSize := BuildInserted(certDbStore, data, k, node.cert);
      NodesAfter(store, AddNode(db, node), maxCertDbSize);
      InsertLength(data, node);
      status := UpdateVariable(db, certDbStore[..newCertDbSize], DbAttributes(db), ZERO, AddNode(db, node));
    }

    // ----- recovery

    /** An allocation, which may fail. */
    method Allocate() returns (ok: bool)
      modifies this`shortages
      ensures shortages <= old(shortages) && (ok <==> shortages == old(shortages))
    {
      var fail := *;
      if fail && shortages > 0 {
        shortages := shortages - 1;
        return false;
      }
      ok := true;
    }

    /** One pass of the clean-up: the first node whose variable is not stored as an authenticated one. Each
        name is copied into memory of its own. */
    method FindOrphan(data: seq<byte>) returns (ok: bool, orphan: Option<Key>)
      requires CertDb.Parse(data).Some? && |data| < 0x1_0000_0000
      modifies this`shortages
      ensures shortages <= old(shortages) && (ok <==> shortages == old(shortages))
      ensures ok ==> orphan == FirstOrphan(CertDb.Parse(data).value, store)
      ensures orphan.Some? ==>
        ValidKey(orphan.value) && HasKey(CertDb.Parse(data).value, orphan.value) && !StoredPrivate(store, orphan.value)
    {
      hide CertDb.Parse, IndexOf, ReadLe32, OffsetOf, Node.Valid, StoredPrivate, CertDb.KeyAt, ValidKey, HasKey;
      ghost var ns := CertDb.Parse(data).value;
      ghost var i := 0;
      var offset: nat := 4;
      OffsetZero(data, ns);
      while offset < |data|
        invariant AllValid(ns) && i <= |ns| && offset == OffsetOf(ns, i) && 4 <= offset <= |data|
        invariant offset < |data| <==> i < |ns|
        invariant FirstOrphan(ns, store) == FirstOrphan(ns[i..], store) && shortages == old(shortages)
        decreases |data| - offset
      {
        ReadNode(data, ns, i, offset);
        SplitAt(ns, i);
        ok := Allocate();
        if !ok {
          return false, None;
        }
        var nodeSize, k := ReadLe32(data, offset + 16), CertDb.KeyAt(data, offset);
        if !StoredPrivate(store, k) {
          HasKeyAt(ns, i);
          return true, Some(k);
        }
        offset := offset + nodeSize;
        i := i + 1;
      }
      ok, orphan := true, None;
    }

    /** CleanCertsFromDb: drop every node without a stored variable and keep the others in their order.
        It comes to an end however many writes fail, as long as only finitely many do. Where memory runs
        out it ends early, and has dropped none of the others either. */
    method CleanCertsFromDb() returns (status: Status)
      requires Valid()
      modifies this`store, this`faults, this`history, this`shortages, certDbStore
      ensures Valid() && old(history) <= history && faults <= old(faults) && shortages <= old(shortages)
      ensures OnlyDbChanged(CertDbNv)
      ensures status == if CertDbNv !in old(store) then NotFound else if shortages < old(shortages) then OutOfResources else Success
      ensures CertDbNv in store <==> CertDbNv in old(store)
      ensures Survivors(Nodes(store, CertDbNv), old(store)) == Survivors(old(Nodes(store, CertDbNv)), old(store))
      ensures shortages == old(shortages) ==>
        && Nodes(store, CertDbNv) == Survivors(old(Nodes(store, CertDbNv)), old(store))
        && forall k :: HasKey(Nodes(store, CertDbNv), k) ==> StoredPrivate(store, k)
    {
      hide Legal, Replay, CertDb.Parse, IndexOf, ReadLe32, Distinct, HasKey;
      ghost var ns := Nodes(store, CertDbNv);
      var certCleaned := true;
      status := Success;
      SurvivorsNone(store);
      while certCleaned
        invariant Valid() && old(history) <= history && faults <= old(faults) && OnlyDbChanged(CertDbNv)
        invariant (CertDbNv in store <==> CertDbNv in old(store)) && shortages == old(shortages)
        invariant Survivors(Nodes(store, CertDbNv), old(store)) == Survivors(ns, old(store))
        invariant !certCleaned ==> status == Success && CertDbNv in store && FirstOrphan(Nodes(store, CertDbNv), old(store)).None?
        decreases |Nodes(store, CertDbNv)| + faults, certCleaned
      {
        label Pass:
        certCleaned := false;
        ValidConsistent();
        if CertDbNv !in store {
          return NotFound;
        }
        var ok, orphan := FindOrphan(store[CertDbNv].data);
        if !ok {
          return OutOfResources;
        }
        SamePrivates(store, old(store), CertDbNv);
        OrphanSameStore(Nodes(store, CertDbNv), store, old(store));
        if orphan.Some? {
          var k := orphan.value;
          RemoveOrphan(Nodes(store, CertDbNv), k, old(store));
          status := DeleteCertsFromDb(k, true);
          certCleaned := true;
        } else {
          status := Success;
        }
      }
      SamePrivates(store, old(store), CertDbNv);
      AllSurvive(Nodes(store, CertDbNv), old(store));
    }

    // ----- updates with a timestamp

    /** Everything but these variables is as before. */
    twostate predicate Unchanged(except: set<Var>)
      reads this
    {
      forall v :: v !in except ==> (v in store <==> v in old(store)) && (v in store ==> store[v] == old(store)[v])
    }

    /** What the filter leaves of a payload. */
    function DataOf(v: Var, payload: seq<byte>, attrs: Attributes, env: Env): SignatureFilter.Filtering
      reads this
    {
      DataFor(Find(store, v), v, payload, attrs, env.AroundOf(v))
    }

    /** The filter never ends. */
    predicate Hangs(v: Var, r: Request, attrs: Attributes, env: Env)
      reads this
    {
      DataOf(v, r.payload, attrs, env).Never?
    }

    /** The filter writes past its scratch memory. */
    predicate Spills(v: Var, r: Request, attrs: Attributes, env: Env)
      reads this
    {
      DataOf(v, r.payload, attrs, env).Overruns?
    }

    /** A request that comes to an end and is not the deletion of something that is not there. */
    predicate HasEffect(v: Var, r: Request, attrs: Attributes, env: Env)
      reads this
    {
      DataOf(v, r.payload, attrs, env).Done? && (v in store || r.payload != [])
    }

    /** The payload of an append to a signature database loses what the database already holds. */
    method FilteredPayload(v: Var, payload: seq<byte>, attrs: Attributes, env: Env) returns (data: SignatureFilter.Filtering)
      ensures data == DataOf(v, payload, attrs, env)
    {
      hide SignatureFilter.FilterBytes;
      data := SignatureFilter.Done(payload);
      if v in store && attrs.append && IsSignatureDb(v) {
        var buffer := new byte[|payload|];
        CopyMem(buffer, 0, payload);
        assert buffer[..] == payload;
        var stored := Buffer(store[v].data, env.BehindData(v));
        var status, size, overruns := SignatureFilter.FilterSignatureList(stored, buffer, env.behind, env.scratchAvailable);
        data := if overruns then SignatureFilter.Overruns
                else if status == NoReturn then SignatureFilter.Never
                else SignatureFilter.Done(buffer[..size]);
      }
    }

    /** UpdateVariableWithTimeStamp. What is written is the payload, filtered if it is appended to a
        signature database. Where the filter overruns its scratch memory, what comes of it is left open. */
    method UpdateVariableWithTimeStamp(v: Var, payload: seq<byte>, attrs: Attributes, time: Time, env: Env)
      returns (status: Status, ghost data: seq<byte>)
      requires Valid() && !IsCertDb(v)
      requires v.Private? ==> ValidKey(v.key)
      requires v.Private? && payload != [] && attrs.timeAuth && !(v in store && attrs.append) ==>
        HasKey(Nodes(store, DbFor(attrs.nonVolatile)), v.key)
      modifies this`store, this`faults, this`history
      ensures Valid() && old(history) <= history && faults <= old(faults)
      ensures Unchanged({v})
      ensures status != Success ==> store == old(store)
      ensures status == Success ==> faults == old(faults)
      ensures status == Success ==>
        Wrote(Find(old(store), v), Find(store, v), v, payload, attrs, time, mergeTime, env.AroundOf(v), data)
      ensures old(DataOf(v, payload, attrs, env)).Never? ==> status == NoReturn && faults == old(faults)
      ensures old(DataOf(v, payload, attrs, env)).Done? ==> status != NoReturn
      ensures old(DataOf(v, payload, attrs, env)).Done? && faults == old(faults) ==>
        (status == Success <==> v in old(store) || payload != [])
    {
      hide Legal, Replay, DataFor, Update, Allowed, Apply, Consistent, HasKey;
      ValidConsistent();
      data := payload;
      var filtered := FilteredPayload(v, payload, attrs, env);
      var bytes;
      match filtered {
        case Never =>
          return NoReturn, data;
        case Overruns =>
          var goesOn := *;
          if !goesOn {
            return NoReturn, data;
          }
          bytes := *;
        case Done(left) =>
          bytes := left;
      }
      data := bytes;
      OutcomeIs(Find(store, v), bytes, attrs, time, mergeTime);
      DataOfNew(Find(store, v), v, payload, attrs, env.AroundOf(v));
      ghost var w := WriteOf(v, Update(Find(store, v), bytes, attrs, time, mergeTime));
      WriteOfIsAllowed(store, v, bytes, attrs, time, mergeTime, maxCertDbSize);
      status := UpdateVariable(v, bytes, attrs, time, w);
    }

    /** The private part of VerifyTimeBasedPayload: check the signer, and record it for a new variable. */
    method VerifyPrivate(k: Key, r: Request, attrs: Attributes, stored: bool, env: Env) returns (verified: bool)
      requires Valid() && ValidKey(k)
      modifies this`store, this`faults, this`history, certDbStore
      ensures Valid() && old(history) <= history && faults <= old(faults)
      ensures OnlyDbChanged(DbFor(attrs.nonVolatile))
      ensures !verified || stored || r.payload == [] ==> store == old(store)
      ensures OnlyRecord(old(store), store, k, DbFor(attrs.nonVolatile))
      ensures verified ==> Authentic(crypto, old(store), Private(k), r, attrs, AuthPriv, stored, env)
      ensures verified ==> faults == old(faults)
      ensures verified && (stored || r.payload != []) ==> HasKey(Nodes(store, DbFor(attrs.nonVolatile)), k)
      ensures verified && !stored && r.payload != [] ==> RecordedFor(crypto, Lookup(Nodes(store, DbFor(attrs.nonVolatile)), k), r)
      ensures stored || r.payload == [] ==>
        (verified <==> Authentic(crypto, old(store), Private(k), r, attrs, AuthPriv, stored, env))
      ensures faults == old(faults) && !stored && r.payload != [] ==>
        (verified <==> Authentic(crypto, old(store), Private(k), r, attrs, AuthPriv, stored, env)
                       && CanRecordSigner(crypto, old(store), k, attrs, r, maxCertDbSize))
    {
      hide Legal, Replay, CertDb.Parse, IndexOf, CanRecord;
      var content := Content(Private(k), attrs, r.time, r.payload);
      match crypto.signers(r.sigData)
      case None =>
        verified := false;
      case Some(sg) =>
        if stored {
          var status, certsInCertDb := GetCertsFromDb(k, attrs.nonVolatile);
          if status != Success || !RecordMatches(crypto, certsInCertDb, r, sg) {
            return false;
          }
        }
        verified := crypto.verify(r.sigData, sg.topLevelCert, content);
        if verified && !stored && r.payload != [] {
          var status := InsertCertsToDb(crypto.hashAlg(r.sigData), k, attrs.nonVolatile, sg.signerCert, sg.topLevelCert);
          NodeAdded(old(Nodes(store, DbFor(attrs.nonVolatile))), k);
          SameRecord(crypto, old(store), k, attrs.nonVolatile, crypto.hashAlg(r.sigData), sg, maxCertDbSize);
          verified := status == Success;
          if verified {
            NewRecord(crypto, old(Nodes(store, DbFor(attrs.nonVolatile))), k, r);
          }
        }
    }

    /** The search of KEK. */
    method VerifyWithKek(r: Request, content: Content, env: Env) returns (verdict: Verdict)
      requires Kek in store
      ensures verdict == KekVerdict(crypto, store, r, content, env)
    {
      hide Scan;
      var data := store[Kek].data;
      verdict := ScanKeys(key => crypto.verify(r.sigData, key, content), Seen(data, env.BehindData(Kek)), |data|);
    }

    /** The part of VerifyTimeBasedPayload that depends on whom the variable answers to. */
    method VerifySignature(v: Var, r: Request, attrs: Attributes, authType: AuthVarType, stored: bool, env: Env)
      returns (verdict: Verdict)
      requires Valid() && (v.Private? ==> ValidKey(v.key)) && (authType.AuthPriv? <==> v.Private?)
      requires authType.AuthKek? ==> Kek in store
      modifies this`store, this`faults, this`history, certDbStore
      ensures Valid() && old(history) <= history && faults <= old(faults)
      ensures OnlyDbChanged(DbFor(attrs.nonVolatile))
      ensures verdict != Accepted || !v.Private? || stored || r.payload == [] ==> store == old(store)
      ensures !v.Private? || verdict == Accepted ==> faults == old(faults)
      ensures v.Private? ==> OnlyRecord(old(store), store, v.key, DbFor(attrs.nonVolatile))
      ensures verdict == Accepted ==> Authentic(crypto, old(store), v, r, attrs, authType, stored, env)
      ensures verdict == Accepted && v.Private? && (stored || r.payload != []) ==>
        HasKey(Nodes(store, DbFor(attrs.nonVolatile)), v.key)
      ensures verdict == Accepted && v.Private? && !stored && r.payload != [] ==>
        RecordedFor(crypto, Lookup(Nodes(store, DbFor(attrs.nonVolatile)), v.key), r)
      ensures !v.Private? || stored || r.payload == [] ==>
        verdict == Authentication(crypto, old(store), v, r, attrs, authType, stored, env)
      ensures v.Private? ==> verdict != NoAnswer
      ensures faults == old(faults) && v.Private? && !stored && r.payload != [] ==>
        (verdict == Accepted <==> Authentic(crypto, old(store), v, r, attrs, authType, stored, env)
                                  && CanRecordSigner(crypto, old(store), v.key, attrs, r, maxCertDbSize))
    {
      hide Legal, Replay, HasKey, Nodes, SignedBySameSigner, SignedByPk, SelfSigned, CanRecordSigner, KekVerdict;
      var content := Content(v, attrs, r.time, r.payload);
      match authType
      case AuthPk =>
        verdict := VerifyWithPk(r, content, env);
      case AuthKek =>
        verdict := VerifyWithKek(r, content, env);
      case AuthPriv =>
        var verified := VerifyPrivate(v.key, r, attrs, stored, env);
        verdict := if verified then Accepted else Rejected;
      case AuthPayload =>
        verdict := VerifyWithPayload(r, content, env);
    }

    /** The certificate the payload brings along. */
    method VerifyWithPayload(r: Request, content: Content, env: Env) returns (verdict: Verdict)
      ensures verdict == if SelfSigned(crypto, r, content, env) then Accepted else Rejected
    {
      hide SignatureFormat.KeyAt, HeadAt;
      var m := Seen(r.payload, env.behind);
      var trustedCert := SignatureFormat.KeyAt(m, 0, HeadAt(m, 0), 0);
      verdict := if crypto.verify(r.sigData, trustedCert, content) then Accepted else Rejected;
    }

    /** The comparison with the platform key. */
    method VerifyWithPk(r: Request, content: Content, env: Env) returns (verdict: Verdict)
      ensures verdict == if SignedByPk(crypto, store, r, content, env) then Accepted else Rejected
    {
      hide SignatureFormat.KeyAt, HeadAt;
      match crypto.signers(r.sigData)
      case None =>
        verdict := Rejected;
      case Some(sg) =>
        if Pk !in store {
          return Rejected;
        }
        var m := Seen(store[Pk].data, env.BehindData(Pk));
        var certList := HeadAt(m, 0);
        if |sg.topLevelCert| != certList.KeySize() || SignatureFormat.KeyAt(m, 0, certList, 0) != sg.topLevelCert {
          return Rejected;
        }
        verdict := if crypto.verify(r.sigData, sg.topLevelCert, content) then Accepted else Rejected;
    }

    /** What is looked at before the signature. */
    method CheckRequest(r: Request, attrs: Attributes, orgTime: Option<Time>) returns (ok: bool)
      ensures ok == WellFormedRequest(crypto, r, attrs, orgTime)
    {
      hide NotLater;
      if !r.padsZero {
        return false;
      }
      if orgTime.Some? && !attrs.append && NotLater(r.time, orgTime.value) {
        return false;
      }
      if !r.pkcs7 {
        return false;
      }
      if attrs.timeAuth && crypto.hashAlg(r.sigData) >= 3 {
        return false;
      }
      ok := true;
    }

    /** The signed part of VerifyTimeBasedPayload. */
    method VerifySigned(v: Var, r: Request, attrs: Attributes, authType: AuthVarType, env: Env) returns (status: Status)
      requires Valid() && (v.Private? ==> ValidKey(v.key)) && (authType.AuthPriv? <==> v.Private?)
      modifies this`store, this`faults, this`history, certDbStore
      ensures Valid() && old(history) <= history && faults <= old(faults)
      ensures OnlyDbChanged(DbFor(attrs.nonVolatile))
      ensures status != Success || !v.Private? || v in old(store) || r.payload == [] ==> store == old(store)
      ensures !v.Private? || status == Success ==> faults == old(faults)
      ensures v.Private? ==> OnlyRecord(old(store), store, v.key, DbFor(attrs.nonVolatile))
      ensures status == Success ==> env.scratchAvailable && Authentic(crypto, old(store), v, r, attrs, authType, v in old(store), env)
      ensures status == Success && v.Private? && (v in old(store) || r.payload != []) ==>
        HasKey(Nodes(store, DbFor(attrs.nonVolatile)), v.key)
      ensures status == Success && v.Private? && v !in old(store) && r.payload != [] ==>
        RecordedFor(crypto, Lookup(Nodes(store, DbFor(attrs.nonVolatile)), v.key), r)
      ensures !v.Private? || v in old(store) || r.payload == [] ==>
        && (status == Success <==>
              env.scratchAvailable && Authentication(crypto, old(store), v, r, attrs, authType, v in old(store), env) == Accepted)
        && (status == NoReturn <==>
              env.scratchAvailable && Authentication(crypto, old(store), v, r, attrs, authType, v in old(store), env) == NoAnswer)
      ensures v.Private? ==> status != NoReturn
      ensures faults == old(faults) && v.Private? && v !in old(store) && r.payload != [] ==>
        (status == Success <==>
          && env.scratchAvailable && Authentic(crypto, old(store), v, r, attrs, authType, false, env)
          && CanRecordSigner(crypto, old(store), v.key, attrs, r, maxCertDbSize))
    {
      hide Legal, Replay, HasKey, Nodes, Authentication, CanRecordSigner;
      if !env.scratchAvailable {
        return OutOfResources;
      }
      if authType.AuthKek? && Kek !in store {
        NoKekNoSignature(crypto, store, v, r, attrs, v in store, env);
        return NotFound;
      }
      var verdict := VerifySignature(v, r, attrs, authType, v in store, env);
      status := if verdict == NoAnswer then NoReturn else if verdict == Rejected then SecurityViolation else Success;
    }

    /** VerifyTimeBasedPayload. Only recording the signer of a new common variable writes anything. */
    method VerifyTimeBasedPayload(v: Var, r: Request, attrs: Attributes, authType: AuthVarType,
                                  orgTime: Option<Time>, env: Env) returns (status: Status)
      requires Valid() && (v.Private? ==> ValidKey(v.key)) && (authType.AuthPriv? <==> v.Private?)
      requires orgTime == if v in store then Some(store[v].time) else None
      modifies this`store, this`faults, this`history, certDbStore
      ensures Valid() && old(history) <= history && faults <= old(faults)
      ensures status != Success || !v.Private? || v in old(store) || r.payload == [] ==> store == old(store)
      ensures !v.Private? || status == Success ==> faults == old(faults)
      ensures OnlyDbChanged(DbFor(attrs.nonVolatile))
      ensures v.Private? ==> OnlyRecord(old(store), store, v.key, DbFor(attrs.nonVolatile))
      ensures status == Success ==> Passing(crypto, old(store), v, r, attrs, authType, env)
      ensures status == Success && v.Private? && r.payload != [] ==> HasKey(Nodes(store, DbFor(attrs.nonVolatile)), v.key)
      ensures status == Success && v.Private? && v !in old(store) && r.payload != [] ==>
        RecordedFor(crypto, Lookup(Nodes(store, DbFor(attrs.nonVolatile)), v.key), r)
      ensures !v.Private? || v in old(store) || r.payload == [] ==>
        && (status == Success <==> Passing(crypto, old(store), v, r, attrs, authType, env))
        && (status == NoReturn <==> NeverVerified(crypto, old(store), v, r, attrs, authType, env))
      ensures faults == old(faults) && v.Private? && v !in old(store) && r.payload != [] ==>
        (status == Success <==> Passing(crypto, old(store), v, r, attrs, authType, env)
                                && CanRecordSigner(crypto, old(store), v.key, attrs, r, maxCertDbSize))
    {
      hide Legal, Replay, HasKey, Nodes, Authentication, Format, WellFormedRequest, CanRecordSigner, Passing, NeverVerified, StoredPrivate;
      Outcomes(crypto, store, v, r, attrs, authType, env);
      var wellFormed := CheckRequest(r, attrs, orgTime);
      if !wellFormed {
        return SecurityViolation;
      }
      PrivateFormatOk(crypto, v, r.payload, env);
      if !UnsignedDelete(r, attrs, env) {
        status := VerifySigned(v, r, attrs, authType, env);
        if status != Success {
          return;
        }
      }
      var verdict := CheckFormat(crypto, v, r.payload, env);
      status := if verdict == NoAnswer then NoReturn else if verdict == Rejected then InvalidParameter else Success;
    }

    /** A variable was updated once, with the data for this payload. */
    twostate predicate Carried(v: Var, payload: seq<byte>, attrs: Attributes, time: Time, env: Env, data: seq<byte>)
      reads this
    {
      Wrote(Find(old(store), v), Find(store, v), v, payload, attrs, time, mergeTime, env.AroundOf(v), data)
    }

    /** VerifyTimeBasedPayloadAndUpdate for PK, KEK, the signature databases and the switches. */
    method VerifyAndUpdateNamed(v: Var, r: Request, attrs: Attributes, authType: AuthVarType, env: Env)
      returns (status: Status, varDel: bool, ghost data: seq<byte>)
      requires Valid() && !IsCertDb(v) && !v.Private? && !authType.AuthPriv? && !atRuntime
      modifies this`store, this`faults, this`history, certDbStore
      ensures Valid() && old(history) <= history && faults <= old(faults)
      ensures Unchanged({v})
      ensures status != Success ==> store == old(store)
      ensures status == Success ==> faults == old(faults) && Passing(crypto, old(store), v, r, attrs, authType, env)
      ensures !Passing(crypto, old(store), v, r, attrs, authType, env) ==> faults == old(faults)
      ensures status == Success ==> Carried(v, r.payload, attrs, r.time, env, data)
      ensures faults == old(faults) && !(Passing(crypto, old(store), v, r, attrs, authType, env) && old(Spills(v, r, attrs, env))) ==>
        (status == Success <==> Passing(crypto, old(store), v, r, attrs, authType, env) && old(HasEffect(v, r, attrs, env)))
      ensures !(Passing(crypto, old(store), v, r, attrs, authType, env) && old(Spills(v, r, attrs, env))) ==>
        (status == NoReturn <==>
          || NeverVerified(crypto, old(store), v, r, attrs, authType, env)
          || (Passing(crypto, old(store), v, r, attrs, authType, env) && old(Hangs(v, r, attrs, env))))
      ensures status == Success && r.payload != [] && !attrs.append ==> v in store && store[v].time == r.time
      ensures varDel <==> status == Success && v in old(store) && r.payload == [] && !attrs.append
    {
      hide Legal, Replay, HasKey, Passing, NeverVerified, Nodes, Wrote, CanRecordSigner, DataFor, OnlyDbChanged;
      varDel, data := false, r.payload;
      PassingOrNever(crypto, store, v, r, attrs, authType, env);
      var orgTime := if v in store then Some(store[v].time) else None;
      status := VerifyTimeBasedPayload(v, r, attrs, authType, orgTime, env);
      if status == Success {
        var isDel := v in store && r.payload == [] && !attrs.append;
        status, data := UpdateVariableWithTimeStamp(v, r.payload, attrs, r.time, env);
        WroteTime(Find(old(store), v), Find(store, v), v, r.payload, attrs, r.time, mergeTime, env.AroundOf(v), data);
        varDel := isDel && status == Success;
      }
    }

    predicate SameAttributes(v: Var, attrs: Attributes)
      reads this
    {
      StoredWith(store, v, attrs)
    }

    /** A request with the time-based attribute finds variable and record as they should be. */
    predicate InStepAt(k: Key, attrs: Attributes)
      reads this
    {
      attrs.timeAuth && SameAttributes(Private(k), attrs) && RecordIsKept(store, k, attrs.nonVolatile)
    }

    /** The end of VerifyTimeBasedPayloadAndUpdate for a common variable: carry out a request that passed,
        and drop the signer's record with a deleted variable. */
    method CarryOut(k: Key, r: Request, attrs: Attributes, env: Env) returns (status: Status, varDel: bool, ghost data: seq<byte>)
      requires Valid() && ValidKey(k)
      requires r.payload != [] ==> HasKey(Nodes(store, DbFor(attrs.nonVolatile)), k)
      modifies this`store, this`faults, this`history, certDbStore
      ensures Valid() && old(history) <= history && faults <= old(faults)
      ensures Unchanged({Private(k), DbFor(attrs.nonVolatile)})
      ensures r.payload != [] && status != Success ==> store == old(store)
      ensures status == Success || store != old(store) ==> Carried(Private(k), r.payload, attrs, r.time, env, data)
      ensures status == Success && r.payload != [] && !attrs.append ==> Private(k) in store && store[Private(k)].time == r.time
      ensures r.payload != [] && status == Success ==> faults == old(faults)
      ensures r.payload != [] && faults == old(faults) ==> status == Success
      ensures r.payload != [] || attrs.append ==> Nodes(store, DbFor(attrs.nonVolatile)) == old(Nodes(store, DbFor(attrs.nonVolatile)))
      ensures r.payload == [] && faults == old(faults) ==>
        (status == Success <==> Private(k) in old(store) && (attrs.append || CanDropRecord(old(store), k, attrs.nonVolatile)))
      ensures status != NoReturn
      ensures varDel <==> status == Success && Private(k) in old(store) && r.payload == [] && !attrs.append
      ensures status == Success && varDel ==>
        DbFor(attrs.nonVolatile) in store &&
        Nodes(store, DbFor(attrs.nonVolatile)) == Remove(old(Nodes(store, DbFor(attrs.nonVolatile))), k)
      ensures OnlyRecord(old(store), store, k, DbFor(attrs.nonVolatile))
      ensures faults == old(faults) && attrs.timeAuth && r.payload != [] && old(SameAttributes(Private(k), attrs)) ==>
        RecordIsKept(store, k, attrs.nonVolatile)
      ensures faults == old(faults) && old(InStepAt(k, attrs)) ==> RecordIsKept(store, k, attrs.nonVolatile)
    {
      hide Legal, Replay, HasKey, SignatureList.Parse, Nodes, Remove, Update, DataFor, Wrote, Consistent;
      var v := Private(k);
      ghost var db := DbFor(attrs.nonVolatile);
      OutcomeIs(Find(store, v), r.payload, attrs, r.time, mergeTime);
      DataOfNew(Find(store, v), v, r.payload, attrs, env.AroundOf(v));
      var isDel := v in store && r.payload == [] && !attrs.append;
      status, data := UpdateVariableWithTimeStamp(v, r.payload, attrs, r.time, env);
      WroteTime(Find(old(store), v), Find(store, v), v, r.payload, attrs, r.time, mergeTime, env.AroundOf(v), data);
      WroteAttributes(Find(old(store), v), Find(store, v), v, r.payload, attrs, r.time, mergeTime, env.AroundOf(v), data);
      NodesSame(store, old(store), db);
      if isDel && status == Success {
        WroteDeletion(Find(old(store), v), Find(store, v), v, attrs, r.time, mergeTime, env.AroundOf(v), data);
        SameCanDrop(store, old(store), k, attrs.nonVolatile);
        ValidConsistent();
        Removed(store, db, k, maxCertDbSize);
        label Deleted:
        status := DeleteCertsFromDb(k, attrs.nonVolatile);
        OnlyDbIsUnchanged@Deleted(db);
        NodesIfSame(store, old@Deleted(store), db);
        CannotDrop(old@Deleted(store), k, attrs.nonVolatile);
      }
      varDel := isDel && status == Success;
    }

    /** VerifyTimeBasedPayloadAndUpdate for a common variable. */
    method VerifyAndUpdatePrivate(k: Key, r: Request, attrs: Attributes, env: Env)
      returns (status: Status, varDel: bool, ghost data: seq<byte>)
      requires Valid() && ValidKey(k) && !atRuntime
      modifies this`store, this`faults, this`history, certDbStore
      ensures Valid() && old(history) <= history && faults <= old(faults)
      ensures Unchanged({Private(k), DbFor(attrs.nonVolatile)})
      ensures r.payload != [] && status != Success ==> Find(store, Private(k)) == Find(old(store), Private(k))
      ensures status == Success || store != old(store) ==> Passing(crypto, old(store), Private(k), r, attrs, AuthPriv, env)
      ensures status == Success || Find(store, Private(k)) != Find(old(store), Private(k)) ==>
        Carried(Private(k), r.payload, attrs, r.time, env, data)
      ensures faults == old(faults) ==>
        (status == Success <==>
          && Passing(crypto, old(store), Private(k), r, attrs, AuthPriv, env)
          && CanKeepRecords(crypto, old(store), k, r, attrs, maxCertDbSize))
      ensures status == Success && r.payload != [] && !attrs.append ==> Private(k) in store && store[Private(k)].time == r.time
      ensures varDel <==> status == Success && Private(k) in old(store) && r.payload == [] && !attrs.append
      ensures status == Success && varDel ==>
        DbFor(attrs.nonVolatile) in store &&
        Nodes(store, DbFor(attrs.nonVolatile)) == Remove(old(Nodes(store, DbFor(attrs.nonVolatile))), k)
      // a new variable's signer is on record, and stays there until the variable is deleted
      ensures status == Success && Private(k) !in old(store) && r.payload != [] ==>
        RecordedFor(crypto, Lookup(Nodes(store, DbFor(attrs.nonVolatile)), k), r)
      ensures Private(k) in old(store) && (r.payload != [] || attrs.append) ==>
        Nodes(store, DbFor(attrs.nonVolatile)) == old(Nodes(store, DbFor(attrs.nonVolatile)))
      ensures OnlyRecord(old(store), store, k, DbFor(attrs.nonVolatile))
      ensures faults == old(faults) && old(InStepAt(k, attrs)) ==> RecordIsKept(store, k, attrs.nonVolatile)
    {
      hide Lookup, RecordedFor, Legal, Replay, HasKey, Passing, NeverVerified, Nodes, Remove, Wrote, CanRecordSigner, CanDropRecord, StoredPrivate,
        DataFor, OnlyDbChanged;
      var v := Private(k);
      varDel, data := false, r.payload;
      var orgTime := if v in store then Some(store[v].time) else None;
      status := VerifyTimeBasedPayload(v, r, attrs, AuthPriv, orgTime, env);
      OnlyDbIsUnchanged(DbFor(attrs.nonVolatile));
      if status == Success {
        status, varDel, data := CarryOut(k, r, attrs, env);
      }
    }

    /** VerifyTimeBasedPayloadAndUpdate. varDel tells whether the variable was deleted. */
    method VerifyTimeBasedPayloadAndUpdate(v: Var, r: Request, attrs: Attributes, authType: AuthVarType, env: Env)
      returns (status: Status, varDel: bool, ghost data: seq<byte>)
      requires Valid() && !IsCertDb(v) && (v.Private? ==> ValidKey(v.key)) && (authType.AuthPriv? <==> v.Private?)
      modifies this`store, this`faults, this`history, certDbStore
      ensures Valid() && old(history) <= history && faults <= old(faults)
      ensures Unchanged({v, DbFor(attrs.nonVolatile)}) && (!v.Private? ==> Unchanged({v}))
      ensures atRuntime ==> status == WriteProtected && store == old(store) && faults == old(faults)
      ensures !v.Private? && status != Success ==> store == old(store)
      ensures r.payload != [] && status != Success ==> Find(store, v) == Find(old(store), v)
      // only an authentic request that is newer than what was stored writes anything, let alone succeeds
      ensures status == Success || store != old(store) ==> Passing(crypto, old(store), v, r, attrs, authType, env)
      // and then the variable holds what was asked for
      ensures status == Success || Find(store, v) != Find(old(store), v) ==> Carried(v, r.payload, attrs, r.time, env, data)
      // such a request succeeds, unless a write fails or there is nothing to delete
      ensures !v.Private? && status == Success ==> faults == old(faults)
      ensures !v.Private? && !Passing(crypto, old(store), v, r, attrs, authType, env) ==> faults == old(faults)
      ensures !v.Private? && faults == old(faults) && !(Passing(crypto, old(store), v, r, attrs, authType, env) && old(Spills(v, r, attrs, env))) ==>
        (status == Success <==>
          !atRuntime && Passing(crypto, old(store), v, r, attrs, authType, env) && old(HasEffect(v, r, attrs, env)))
      ensures v.Private? && faults == old(faults) ==>
        (status == Success <==>
          && !atRuntime && Passing(crypto, old(store), v, r, attrs, authType, env)
          && CanKeepRecords(crypto, old(store), v.key, r, attrs, maxCertDbSize))
      // and it does not return if the verification does not, or the filter of an append
      ensures !v.Private? && !(Passing(crypto, old(store), v, r, attrs, authType, env) && old(Spills(v, r, attrs, env))) ==>
        (status == NoReturn <==>
          !atRuntime && (NeverVerified(crypto, old(store), v, r, attrs, authType, env)
                         || (Passing(crypto, old(store), v, r, attrs, authType, env) && old(Hangs(v, r, attrs, env)))))
      ensures status == Success && r.payload != [] && !attrs.append ==> v in store && store[v].time == r.time
      ensures varDel <==> status == Success && v in old(store) && r.payload == [] && !attrs.append
      // deleting a common variable takes its signer's record along
      ensures status == Success && varDel && v.Private? ==>
        DbFor(attrs.nonVolatile) in store &&
        Nodes(store, DbFor(attrs.nonVolatile)) == Remove(old(Nodes(store, DbFor(attrs.nonVolatile))), v.key)
      // a new variable's signer is on record, and stays there until the variable is deleted
      ensures v.Private? && status == Success && v !in old(store) && r.payload != [] ==>
        RecordedFor(crypto, Lookup(Nodes(store, DbFor(attrs.nonVolatile)), v.key), r)
      ensures v.Private? && v in old(store) && (r.payload != [] || attrs.append) ==>
        Nodes(store, DbFor(attrs.nonVolatile)) == old(Nodes(store, DbFor(attrs.nonVolatile)))
      // and whatever is done, the record and the variable stay in step
      ensures v.Private? ==> OnlyRecord(old(store), store, v.key, DbFor(attrs.nonVolatile))
      ensures v.Private? && faults == old(faults) && old(InStepAt(v.key, attrs)) ==> RecordIsKept(store, v.key, attrs.nonVolatile)
    {
      hide Legal, Replay, HasKey, Passing, NeverVerified, Nodes, Remove, Wrote, CanKeepRecords, StoredPrivate, DataFor;
      varDel, data := false, r.payload;
      if atRuntime {
        return WriteProtected, false, r.payload;
      }
      if v.Private? {
        status, varDel, data := VerifyAndUpdatePrivate(v.key, r, attrs, env);
      } else {
        status, varDel, data := VerifyAndUpdateNamed(v, r, attrs, authType, env);
      }
    }

    /** A run of updates, of any variables and in any order. Those of one stored variable, none of them an
        append or a deletion, take it through timestamps of which none is accepted again. */
    method UpdateRepeatedly(v: Var, steps: seq<Step>) returns (ghost times: seq<Time>)
      requires Valid() && v in store && !IsCertDb(v)
      requires forall s :: s in steps ==>
                 && !IsCertDb(s.v) && (s.v.Private? ==> ValidKey(s.v.key)) && (s.authType.AuthPriv? <==> s.v.Private?)
                 && (s.v == v ==> !s.attrs.append && s.request.payload != [])
      modifies this`store, this`faults, this`history, certDbStore
      ensures Valid() && v in store
      ensures AcceptedRun(times) && times != [] && times[0] == old(store)[v].time && times[|times| - 1] == store[v].time
      ensures forall i, j :: 0 <= i < j < |times| ==> Stamp(times[i]) < Stamp(times[j])
    {
      hide Legal, Replay, Authentic, Format, Wrote, NotLater, RecordIsKept, OnlyRecord, CanKeepRecords, NeverVerified, InStepAt,
        HasEffect, Hangs, Spills, Nodes, Remove, StoredPrivate, DataFor, Stamp;
      times := [store[v].time];
      for i := 0 to |steps|
        invariant Valid() && v in store
        invariant AcceptedRun(times) && times != [] && times[0] == old(store)[v].time && times[|times| - 1] == store[v].time
      {
        var s := steps[i];
        var status, varDel;
        ghost var data;
        status, varDel, data := VerifyTimeBasedPayloadAndUpdate(s.v, s.request, s.attrs, s.authType, s.env);
        if status == Success && s.v == v {
          times := times + [s.request.time];
        }
      }
      forall i, j | 0 <= i < j < |times|
        ensures Stamp(times[i]) < Stamp(times[j])
      {
        NoReplay(times, i, j);
        NotLaterIsOrderOfTime(times[j], times[i]);
      }
    }

    // ----- platform mode

    /** The platform is in user mode exactly while a platform key is stored. */
    ghost predicate ModeAgrees()
      reads this
    {
      platformMode == if Pk in store then USER_MODE else SETUP_MODE
    }

    /** SetupMode tells the mode, and Secure Boot is on in user mode only. */
    ghost predicate ModeReported()
      reads this
    {
      && SetupMode in store && store[SetupMode].data == [platformMode]
      && SecureBoot in store && (store[SecureBoot].data == [1] ==> platformMode == USER_MODE)
    }

    /** A write to one of the variables with a name of their own. */
    method UpdateNamed(v: Var, data: seq<byte>, attrs: Attributes) returns (status: Status)
      requires Valid() && !v.Private? && !IsCertDb(v) && !IsSignatureDb(v) && !attrs.append
      modifies this`store, this`faults, this`history
      ensures Valid() && old(history) <= history && faults <= old(faults)
      ensures Unchanged({v})
      ensures status != Success ==> store == old(store)
      ensures status == Success <==> faults == old(faults) && (data != [] || v in old(store))
      ensures status == Success && data == [] ==> v !in store
      ensures status == Success && data != [] ==> v in store && store[v] == Variable(data, attrs, ZERO)
      ensures status != NoReturn
    {
      hide Legal, Replay;
      status := UpdateVariable(v, data, attrs, ZERO, if data == [] then DropOther(v) else SetOther(v, Variable(data, attrs, ZERO)));
    }

    /** The status variable is overwritten where it is, without going through an update. */
    method PokeSetupMode(mode: byte)
      requires Valid() && SetupMode in store
      modifies this`store, this`history
      ensures Valid() && old(history) <= history && Unchanged({SetupMode})
      ensures SetupMode in store
      ensures |old(store)[SetupMode].data| == 1 ==> store[SetupMode].data == [mode]
    {
      hide Legal, Replay;
      var x := store[SetupMode];
      var poked := x.(data := [mode] + if x.data == [] then [] else x.data[1..]);
      LegalStep(history, SetOther(SetupMode, poked), maxCertDbSize);
      store, history := store[SetupMode := poked], history + [SetOther(SetupMode, poked)];
    }

    /** The part of UpdatePlatformMode for boot time: "SecureBoot" follows the mode, if it is there, and
        "SecureBootEnable" exists while it is on. */
    method SwitchSecureBoot() returns (status: Status)
      requires Valid()
      modifies this`store, this`faults, this`history
      ensures Valid() && old(history) <= history && faults <= old(faults)
      ensures Unchanged({SecureBoot, SecureBootEnable})
      ensures status != NoReturn && (status == Success ==> faults == old(faults))
      ensures faults == old(faults) ==>
        status == Success && SecureBootSwitched(old(store), store, platformMode)
    {
      var secureBootMode: byte := if SecureBoot !in store then 0 else if platformMode == USER_MODE then 1 else 0;
      status := UpdateNamed(SecureBoot, [secureBootMode], BS_RT);
      if status != Success {
        return;
      }
      if secureBootMode == 1 {
        status := UpdateNamed(SecureBootEnable, [1], NV_BS);
      } else if SecureBootEnable !in store {
        return Success;
      } else {
        status := UpdateNamed(SecureBootEnable, [], NV_BS);
      }
    }

    /** UpdatePlatformMode: record the mode and, before runtime, switch Secure Boot along with it. */
    method UpdatePlatformMode(mode: byte) returns (status: Status)
      requires Valid() && (mode == USER_MODE || mode == SETUP_MODE)
      modifies this`store, this`faults, this`history, this`platformMode
      ensures Valid() && old(history) <= history && faults <= old(faults)
      ensures Unchanged({SetupMode, SecureBoot, SecureBootEnable})
      ensures status != NoReturn && (status == Success ==> faults == old(faults))
      ensures SetupMode !in old(store) ==>
        status == NotFound && store == old(store) && platformMode == old(platformMode)
      ensures SetupMode in old(store) ==>
        && platformMode == mode && SetupMode in store
        && (|old(store)[SetupMode].data| == 1 ==> store[SetupMode].data == [mode])
      ensures SetupMode in old(store) && atRuntime ==> status == Success && Unchanged({SetupMode})
      ensures SetupMode in old(store) && !atRuntime && faults == old(faults) ==>
        status == Success && SecureBootSwitched(old(store), store, mode)
    {
      hide Legal, Replay;
      if SetupMode !in store {
        return NotFound;
      }
      platformMode := mode;
      PokeSetupMode(mode);
      if atRuntime {
        return Success;
      }
      status := SwitchSecureBoot();
    }

    /** VendorKeyIsModified: record that keys were changed out of band. */
    method VendorKeyIsModified() returns (status: Status)
      requires Valid()
      modifies this`store, this`faults, this`history, this`vendorKeyState
      ensures Valid() && old(history) <= history && faults <= old(faults)
      ensures Unchanged({VariableStore.Var.VendorKeysNv, VariableStore.Var.VendorKeys})
      ensures vendorKeyState == VENDOR_KEYS_MODIFIED
      ensures faults == old(faults) ==> status == Success
      ensures status == Success ==> faults == old(faults)
      ensures status != NoReturn
      ensures old(vendorKeyState) == VENDOR_KEYS_MODIFIED ==> store == old(store)
      ensures old(vendorKeyState) != VENDOR_KEYS_MODIFIED && status == Success ==>
        && VendorKeysNv in store && store[VendorKeysNv] == Variable([VENDOR_KEYS_MODIFIED], NV_BS_AT, ZERO)
        && VendorKeys in store && store[VendorKeys] == Variable([VENDOR_KEYS_MODIFIED], BS_RT, ZERO)
    {
      if vendorKeyState == VENDOR_KEYS_MODIFIED {
        return Success;
      }
      vendorKeyState := VENDOR_KEYS_MODIFIED;
      status := UpdateNamed(VendorKeysNv, [vendorKeyState], NV_BS_AT);
      if status != Success {
        return;
      }
      status := UpdateNamed(VendorKeys, [vendorKeyState], BS_RT);
    }

    predicate InCustomMode()
      reads this
    {
      CustomModeOn(store)
    }

    /** ProcessVarWithPk takes the payload as it is. */
    predicate WritesUnsigned(isPk: bool, env: Env)
      reads this
    {
      || (InCustomMode() && env.userPresent)
      || !env.policyEnabled
      || (platformMode == SETUP_MODE && !(requireSelfSignedPk && isPk))
    }

    /** What a request to PK, KEK or a signature database has to pass in this mode. */
    ghost predicate PassesForPk(v: Var, r: Request, attrs: Attributes, isPk: bool, env: Env)
      reads this
    {
      && attrs.nonVolatile && attrs.timeAuth
      && if WritesUnsigned(isPk, env) then Format(crypto, v, r.payload, env) == Accepted
         else if platformMode == SETUP_MODE && isPk && !enforceSelfSignedPk then true
         else !atRuntime && Passing(crypto, store, v, r, attrs, if platformMode == USER_MODE then AuthPk else AuthPayload, env)
    }

    /** A request that the code never verifies in this mode. */
    ghost predicate NeverVerifiedForPk(v: Var, r: Request, attrs: Attributes, isPk: bool, env: Env)
      reads this
    {
      && attrs.nonVolatile && attrs.timeAuth
      && if WritesUnsigned(isPk, env) then Format(crypto, v, r.payload, env) == NoAnswer
         else if platformMode == SETUP_MODE && isPk && !enforceSelfSignedPk then false
         else
           var authType := if platformMode == USER_MODE then AuthPk else AuthPayload;
           !atRuntime && NeverVerified(crypto, store, v, r, attrs, authType, env)
    }

    /** A request that the code never answers in this mode. */
    ghost predicate StuckForPk(v: Var, r: Request, attrs: Attributes, isPk: bool, env: Env)
      reads this
    {
      NeverVerifiedForPk(v, r, attrs, isPk, env) || (PassesForPk(v, r, attrs, isPk, env) && Hangs(v, r, attrs, env))
    }

    /** A request that passes and makes the filter write past its scratch memory. */
    ghost predicate SpillsForPk(v: Var, r: Request, attrs: Attributes, isPk: bool, env: Env)
      reads this
    {
      PassesForPk(v, r, attrs, isPk, env) && Spills(v, r, attrs, env)
    }

    /** The one request after which the mode is wrong: nothing is appended to a platform key, without a
        signature, and that is taken for its deletion. */
    predicate AppendsNothingToPk(r: Request, attrs: Attributes, isPk: bool, env: Env)
      reads this
    {
      && isPk && attrs.nonVolatile && attrs.timeAuth && attrs.append && r.payload == []
      && platformMode == USER_MODE && WritesUnsigned(isPk, env)
    }

    /** The first of the four paths of ProcessVarWithPk: no signature is asked for. */
    method WriteUnsigned(v: Var, r: Request, attrs: Attributes, isPk: bool, env: Env)
      returns (status: Status, del: bool, ghost data: seq<byte>)
      requires Valid() && (v.Pk? || IsSignatureDb(v)) && (isPk <==> v.Pk?)
      modifies this`store, this`faults, this`history, this`vendorKeyState
      ensures Valid() && old(history) <= history && faults <= old(faults)
      ensures Unchanged({v, VariableStore.Var.VendorKeysNv, VariableStore.Var.VendorKeys})
      ensures status == Success ==> faults == old(faults) && Format(crypto, v, r.payload, env) == Accepted
      ensures faults == old(faults) && !(Format(crypto, v, r.payload, env) == Accepted && old(Spills(v, r, attrs, env))) ==>
        (status == Success <==> Format(crypto, v, r.payload, env) == Accepted && old(HasEffect(v, r, attrs, env)))
      ensures !(Format(crypto, v, r.payload, env) == Accepted && old(Spills(v, r, attrs, env))) ==>
        (status == NoReturn <==>
          || Format(crypto, v, r.payload, env) == NoAnswer
          || (Format(crypto, v, r.payload, env) == Accepted && old(Hangs(v, r, attrs, env))))
      ensures Find(store, v) == Find(old(store), v)
        || (Carried(v, r.payload, attrs, r.time, env, data) && Format(crypto, v, r.payload, env) == Accepted)
      ensures status == Success ==> Carried(v, r.payload, attrs, r.time, env, data)
      ensures faults == old(faults) && status != Success ==> store == old(store)
      ensures Format(crypto, v, r.payload, env) != Accepted ==> store == old(store) && faults == old(faults)
      ensures status == Success ==> del == (r.payload == [])
    {
      hide Legal, Replay, Format, Wrote, DataFor;
      del, data := r.payload == [], r.payload;
      var verdict := CheckFormat(crypto, v, r.payload, env);
      if verdict != Accepted {
        return if verdict == NoAnswer then NoReturn else InvalidParameter, del, data;
      }
      status, data := UpdateVariableWithTimeStamp(v, r.payload, attrs, r.time, env);
      if status != Success {
        return;
      }
      if platformMode != SETUP_MODE || (requireSelfSignedPk && isPk) {
        status := VendorKeyIsModified();
      }
    }

    /** The four paths of ProcessVarWithPk. */
    method AuthenticateAndWrite(v: Var, r: Request, attrs: Attributes, isPk: bool, env: Env)
      returns (status: Status, del: bool, ghost data: seq<byte>)
      requires Valid() && (v.Pk? || IsSignatureDb(v)) && (isPk <==> v.Pk?) && attrs.nonVolatile && attrs.timeAuth
      modifies this`store, this`faults, this`history, this`vendorKeyState, certDbStore
      ensures Valid() && old(history) <= history && faults <= old(faults)
      ensures Unchanged({v, VariableStore.Var.VendorKeysNv, VariableStore.Var.VendorKeys})
      ensures status == Success ==> old(PassesForPk(v, r, attrs, isPk, env)) && faults == old(faults)
      ensures faults == old(faults) && !old(SpillsForPk(v, r, attrs, isPk, env)) ==>
        (status == Success <==> old(PassesForPk(v, r, attrs, isPk, env) && HasEffect(v, r, attrs, env)))
      ensures !old(SpillsForPk(v, r, attrs, isPk, env)) ==> (status == NoReturn <==> old(StuckForPk(v, r, attrs, isPk, env)))
      ensures Find(store, v) == Find(old(store), v) || Carried(v, r.payload, attrs, r.time, env, data)
      ensures status == Success ==> Carried(v, r.payload, attrs, r.time, env, data)
      ensures !isPk && Find(store, v) != Find(old(store), v) ==> Format(crypto, v, r.payload, env) == Accepted
      ensures faults == old(faults) && status != Success ==> store == old(store)
      ensures !old(PassesForPk(v, r, attrs, isPk, env)) ==> store == old(store) && faults == old(faults)
      ensures status == Success ==>
        (del <==> r.payload == [] && (old(WritesUnsigned(isPk, env)) || (!attrs.append && v in old(store) && !old(PlainEnrolment(isPk, env)))))
    {
      hide Legal, Replay, Format, Wrote, Nodes, HasKey, WritesUnsigned, Passing, NeverVerified, DataFor;
      DataOfNew(Find(store, v), v, r.payload, attrs, env.AroundOf(v));
      PassingFormat(crypto, store, v, r, attrs, if platformMode == USER_MODE then AuthPk else AuthPayload, env);
      del, data := false, r.payload;
      if WritesUnsigned(isPk, env) {
        status, del, data := WriteUnsigned(v, r, attrs, isPk, env);
      } else if platformMode == USER_MODE {
        status, del, data := VerifyTimeBasedPayloadAndUpdate(v, r, attrs, AuthPk, env);
      } else if !enforceSelfSignedPk && platformMode == SETUP_MODE && isPk {
        status, data := UpdateVariableWithTimeStamp(v, r.payload, attrs, r.time, env);
      } else {
        status, del, data := VerifyTimeBasedPayloadAndUpdate(v, r, attrs, AuthPayload, env);
      }
    }

    /** The third path: PK is taken without any check. */
    ghost predicate PlainEnrolment(isPk: bool, env: Env)
      reads this
    {
      !WritesUnsigned(isPk, env) && platformMode == SETUP_MODE && isPk && !enforceSelfSignedPk
    }

    /** ProcessVarWithPk. A platform key that is enrolled or deleted switches the mode. */
    method ProcessVarWithPk(v: Var, r: Request, attrs: Attributes, isPk: bool, env: Env)
      returns (status: Status, ghost data: seq<byte>)
      requires Valid() && (v.Pk? || IsSignatureDb(v)) && (isPk <==> v.Pk?)
      modifies this`store, this`faults, this`history, this`vendorKeyState, this`platformMode, certDbStore
      ensures Valid() && old(history) <= history && faults <= old(faults)
      ensures !attrs.nonVolatile || !attrs.timeAuth ==> status == InvalidParameter && store == old(store)
      ensures Unchanged({v, VariableStore.Var.VendorKeysNv, VariableStore.Var.VendorKeys, SetupMode, SecureBoot, SecureBootEnable})
      ensures !isPk ==>
        Unchanged({v, VariableStore.Var.VendorKeysNv, VariableStore.Var.VendorKeys}) && platformMode == old(platformMode)
      ensures SetupMode in old(store) ==> SetupMode in store
      // a request that passes succeeds, and no other, unless a write fails
      ensures status == Success ==> old(PassesForPk(v, r, attrs, isPk, env))
      ensures faults == old(faults) && (isPk ==> SetupMode in old(store)) && !old(SpillsForPk(v, r, attrs, isPk, env)) ==>
        (status == Success <==> old(PassesForPk(v, r, attrs, isPk, env) && HasEffect(v, r, attrs, env)))
      ensures !old(SpillsForPk(v, r, attrs, isPk, env)) ==> (status == NoReturn <==> old(StuckForPk(v, r, attrs, isPk, env)))
      ensures !isPk && faults == old(faults) && status != Success ==> store == old(store)
      // and then the variable holds what was asked for
      ensures status == Success || Find(store, v) != Find(old(store), v) ==> Carried(v, r.payload, attrs, r.time, env, data)
      ensures !isPk && Find(store, v) != Find(old(store), v) ==> Format(crypto, v, r.payload, env) == Accepted
      // unless a store write fails, the mode still agrees afterwards exactly when the odd request was not made
      ensures old(ModeAgrees()) && SetupMode in old(store) && faults == old(faults) ==>
        (ModeAgrees() <==> !old(AppendsNothingToPk(r, attrs, isPk, env)))
      ensures old(ModeAgrees() && AppendsNothingToPk(r, attrs, isPk, env)) && SetupMode in old(store) && faults == old(faults) ==>
        platformMode == SETUP_MODE && Pk in store
      ensures old(ModeAgrees()) && old(ModeReported()) && !atRuntime && faults == old(faults) ==> ModeReported()
      ensures SetupMode in old(store) && !atRuntime && faults == old(faults) && platformMode != old(platformMode) ==>
        SecureBootSwitched(old(store), store, platformMode)
      // a signature that nothing verifies changes nothing
      ensures !old(PassesForPk(v, r, attrs, isPk, env)) ==>
        status != Success && store == old(store) && faults == old(faults) && platformMode == old(platformMode)
      ensures old(Guarded(store, platformMode, env)) && Unverifiable(crypto, v, r, attrs) ==>
        status != Success && store == old(store) && platformMode == old(platformMode)
    {
      hide Legal, Replay, Wrote, Format, PassesForPk, NeverVerifiedForPk, WritesUnsigned, DataFor, Unverifiable, Guarded, SecureBootSwitched;
      GuardedPk(v, r, attrs, isPk, env);
      data := r.payload;
      NotPassing(v, r, attrs, isPk, env);
      DataOfNew(Find(store, v), v, r.payload, attrs, env.AroundOf(v));
      EmptyFormat(crypto, v, r.payload, env);
      if !attrs.nonVolatile || !attrs.timeAuth {
        return InvalidParameter, data;
      }
      var del;
      status, del, data := AuthenticateAndWrite(v, r, attrs, isPk, env);
      if status == Success && isPk {
        PkAfter(Find(old(store), Pk), Find(store, Pk), r.payload, attrs, r.time, mergeTime, env.AroundOf(Pk), data);
        label Written:
        status := SwitchMode(del);
        SwitchedSame(old@Written(store), old(store), store, platformMode);
      }
    }

    /** What ProcessVarWithPk does once PK is written: an enrolment ends setup mode, a deletion user mode. */
    method SwitchMode(del: bool) returns (status: Status)
      requires Valid()
      modifies this`store, this`faults, this`history, this`platformMode
      ensures Valid() && old(history) <= history && faults <= old(faults)
      ensures Unchanged({SetupMode, SecureBoot, SecureBootEnable})
      ensures SetupMode in old(store) ==> SetupMode in store
      ensures SetupMode in old(store) && faults == old(faults) ==> status == Success
      ensures status != NoReturn
      ensures SetupMode in old(store) && (old(platformMode) == SETUP_MODE || old(platformMode) == USER_MODE) ==>
        platformMode == if del then SETUP_MODE else USER_MODE
      ensures old(ModeReported()) && !atRuntime && faults == old(faults) ==> ModeReported()
      ensures SetupMode in old(store) && !atRuntime && faults == old(faults) && platformMode != old(platformMode) ==>
        SecureBootSwitched(old(store), store, platformMode)
    {
      hide Legal, Replay;
      status := Success;
      if platformMode == SETUP_MODE && !del {
        status := UpdatePlatformMode(USER_MODE);
      } else if platformMode == USER_MODE && del {
        status := UpdatePlatformMode(SETUP_MODE);
      }
    }

    lemma TimedAttributes(v: Var, r: Request, attrs: Attributes, isPk: bool, env: Env)
      ensures PassesForPk(v, r, attrs, isPk, env) || PassesForKek(v, r, attrs, env) ==> attrs.timeAuth
    {
    }

    /** With someone present in custom mode, with the policy engine off, or in setup mode unless PK has to be
        self-signed, only attributes and format count. */
    lemma TakenUnsigned(v: Var, r: Request, attrs: Attributes, isPk: bool, env: Env)
      requires || (env.userPresent && CustomMode in store && |store[CustomMode].data| > 0 && store[CustomMode].data[0] == 1)
               || !env.policyEnabled
               || (platformMode == SETUP_MODE && !(isPk && requireSelfSignedPk))
      ensures PassesForPk(v, r, attrs, isPk, env) <==> attrs.nonVolatile && attrs.timeAuth && Format(crypto, v, r.payload, env) == Accepted
    {
      hide Passing, Format;
    }

    /** Otherwise user mode asks for PK's signature, and setup mode for one by the payload's own certificate
        if that is enforced. */
    lemma TakenSigned(v: Var, r: Request, attrs: Attributes, isPk: bool, env: Env)
      requires env.policyEnabled && (platformMode == USER_MODE || (platformMode == SETUP_MODE && isPk && requireSelfSignedPk))
      requires env.userPresent ==> CustomMode !in store || store[CustomMode].data == [] || store[CustomMode].data[0] != 1
      ensures PassesForPk(v, r, attrs, isPk, env) <==>
                && attrs.nonVolatile && attrs.timeAuth
                && if platformMode == USER_MODE then !atRuntime && Passing(crypto, store, v, r, attrs, AuthPk, env)
                   else !enforceSelfSignedPk || (!atRuntime && Passing(crypto, store, v, r, attrs, AuthPayload, env))
    {
      hide Passing, Format;
    }

    lemma GuardedPk(v: Var, r: Request, attrs: Attributes, isPk: bool, env: Env)
      ensures Guarded(store, platformMode, env) && Unverifiable(crypto, v, r, attrs) ==> !PassesForPk(v, r, attrs, isPk, env)
    {
      hide Passing, Unverifiable, Format;
      if Guarded(store, platformMode, env) && Unverifiable(crypto, v, r, attrs) {
        UnsignedFails(crypto, store, v, r, attrs, AuthPk, env);
      }
    }

    lemma NotPassing(v: Var, r: Request, attrs: Attributes, isPk: bool, env: Env)
      ensures !attrs.nonVolatile || !attrs.timeAuth ==>
                !PassesForPk(v, r, attrs, isPk, env) && !NeverVerifiedForPk(v, r, attrs, isPk, env)
      ensures WritesUnsigned(isPk, env) && attrs.nonVolatile && attrs.timeAuth ==>
                (PassesForPk(v, r, attrs, isPk, env) <==> Format(crypto, v, r.payload, env) == Accepted)
    {
    }

    /** What a request to a signature database has to pass for its second chance. */
    predicate PassesForKek(v: Var, r: Request, attrs: Attributes, env: Env)
      reads this
    {
      attrs.nonVolatile && attrs.timeAuth && KekStep(crypto, store, platformMode, atRuntime, v, r, attrs, env) == Accepted
    }

    /** A request that the code never answers in its second chance. */
    predicate StuckForKek(v: Var, r: Request, attrs: Attributes, env: Env)
      reads this
    {
      || (attrs.nonVolatile && attrs.timeAuth && KekStep(crypto, store, platformMode, atRuntime, v, r, attrs, env) == NoAnswer)
      || (PassesForKek(v, r, attrs, env) && Hangs(v, r, attrs, env))
    }

    /** A request that passes there and makes the filter write past its scratch memory. */
    predicate SpillsForKek(v: Var, r: Request, attrs: Attributes, env: Env)
      reads this
    {
      PassesForKek(v, r, attrs, env) && Spills(v, r, attrs, env)
    }

    /** ProcessVarWithKek: the second chance of a signature database. */
    method ProcessVarWithKek(v: Var, r: Request, attrs: Attributes, env: Env) returns (status: Status, ghost data: seq<byte>)
      requires Valid() && IsSignatureDb(v)
      modifies this`store, this`faults, this`history, this`vendorKeyState, certDbStore
      ensures Valid() && old(history) <= history && faults <= old(faults)
      ensures !attrs.nonVolatile || !attrs.timeAuth ==> status == InvalidParameter && store == old(store)
      ensures Unchanged({v, VariableStore.Var.VendorKeysNv, VariableStore.Var.VendorKeys})
      ensures status == Success ==> old(PassesForKek(v, r, attrs, env))
      ensures faults == old(faults) && !old(SpillsForKek(v, r, attrs, env)) ==>
        (status == Success <==> old(PassesForKek(v, r, attrs, env) && HasEffect(v, r, attrs, env)))
      ensures !old(SpillsForKek(v, r, attrs, env)) ==> (status == NoReturn <==> old(StuckForKek(v, r, attrs, env)))
      ensures status == Success || Find(store, v) != Find(old(store), v) ==> Carried(v, r.payload, attrs, r.time, env, data)
      ensures Find(store, v) != Find(old(store), v) ==> Format(crypto, v, r.payload, env) == Accepted
      ensures !old(PassesForKek(v, r, attrs, env)) ==> status != Success && store == old(store)
      ensures old(Guarded(store, platformMode, env)) && Unverifiable(crypto, v, r, attrs) ==> status != Success && store == old(store)
    {
      hide Legal, Replay, Format, Wrote, Nodes, HasKey, Passing, NeverVerified, DataFor, Guarded, Unverifiable, OnlyRecord,
        RecordIsKept, CanKeepRecords, StoredPrivate, InStepAt, CustomModeOn, StoredWith, ValidKey, DbFor, Remove;
      GuardedKek(crypto, store, platformMode, atRuntime, v, r, attrs, env);
      PassingFormat(crypto, store, v, r, attrs, AuthKek, env);
      PassingOrNever(crypto, store, v, r, attrs, AuthKek, env);
      data := r.payload;
      if !attrs.nonVolatile || !attrs.timeAuth {
        return InvalidParameter, data;
      }
      var del;
      if platformMode == USER_MODE && !(InCustomMode() && env.userPresent) {
        status, del, data := VerifyTimeBasedPayloadAndUpdate(v, r, attrs, AuthKek, env);
        return;
      }
      status, del, data := WriteUnsigned(v, r, attrs, false, env);
    }

    /** Someone who may do so deletes an authenticated variable without a signature. */
    ghost predicate DeletedByPresence(v: Var, r: Request, attrs: Attributes, env: Env)
      reads this
    {
      v in store && attrs == store[v].attrs && (attrs.counterAuth || attrs.timeAuth) && r.payload == []
      && (env.userPresent || !env.policyEnabled)
    }

    /** The switches want someone present. */
    predicate NeedsPresence(v: Var, env: Env) {
      env.policyEnabled && (v.SecureBootEnable? || v.CustomMode?) && !env.userPresent
    }

    /** ProcessVariable: common variables, authenticated or not, and the two switches. */
    method ProcessVariable(v: Var, r: Request, attrs: Attributes, env: Env) returns (status: Status, ghost data: seq<byte>)
      requires Valid() && (v.Private? || ((v.SecureBootEnable? || v.CustomMode?) && attrs == NV_BS))
      requires v.Private? ==> ValidKey(v.key)
      modifies this`store, this`faults, this`history, certDbStore
      ensures Valid() && old(history) <= history && faults <= old(faults)
      ensures Unchanged({v, DbFor(attrs.nonVolatile)}) && (!v.Private? ==> Unchanged({v}))
      // an authenticated variable is only written by an authentic request, or deleted by someone present
      ensures v.Private? && StoredPrivate(old(store), v.key) && store != old(store) ==>
        || (v !in store && old(DeletedByPresence(v, r, attrs, env)))
        || (attrs.timeAuth && Passing(crypto, old(store), v, r, attrs, AuthPriv, env))
      // on success it is gone, or holds what was asked for
      ensures status == Success ==>
        || (old(DeletedByPresence(v, r, attrs, env)) && v !in store)
        || Carried(v, r.payload, attrs, if attrs.timeAuth then r.time else ZERO, env, data)
      // the deletion by someone present succeeds
      ensures faults == old(faults) && v in old(store) && attrs == old(store)[v].attrs && (attrs.counterAuth || attrs.timeAuth)
              && r.payload == [] && (env.userPresent || !env.policyEnabled) ==>
                status == Success && v !in store
      // when a plain write succeeds, and when a signed one does
      ensures faults == old(faults) && !old(DeletedByPresence(v, r, attrs, env)) && !attrs.timeAuth ==>
        (status == Success <==>
          && !NeedsPresence(v, env) && !attrs.counterAuth && (v in old(store) || r.payload != [])
          && !(v in old(store) && (old(store)[v].attrs.counterAuth || old(store)[v].attrs.timeAuth)))
      ensures faults == old(faults) && !old(DeletedByPresence(v, r, attrs, env)) && attrs.timeAuth ==>
        (status == Success <==>
          && !attrs.counterAuth && !atRuntime && Passing(crypto, old(store), v, r, attrs, AuthPriv, env)
          && CanKeepRecords(crypto, old(store), v.key, r, attrs, maxCertDbSize))
      // nobody who is not present turns a switch, or changes an authenticated variable, without a signature
      ensures env.policyEnabled && !env.userPresent && (v.SecureBootEnable? || v.CustomMode?) ==> status != Success && store == old(store)
      ensures env.policyEnabled && !env.userPresent && Unverifiable(crypto, v, r, attrs) ==>
        && (v in old(store) && (old(store)[v].attrs.counterAuth || old(store)[v].attrs.timeAuth) ==> status != Success && store == old(store))
        && Unchanged({v}) && (v.Private? && StoredPrivate(store, v.key) ==> StoredPrivate(old(store), v.key))
      // the variable and its signer's record stay in step
      ensures old(SameAttributes(v, attrs)) ==> SameAttributes(v, attrs)
      ensures v.Private? ==> OnlyRecord(old(store), store, v.key, DbFor(attrs.nonVolatile))
      ensures v.Private? && faults == old(faults) && old(SameAttributes(v, attrs)) && RecordIsKept(old(store), v.key, attrs.nonVolatile) ==>
        RecordIsKept(store, v.key, attrs.nonVolatile)
    {
      hide Legal, Replay, Wrote, HasKey, Nodes, Passing, NeverVerified, CanKeepRecords, RecordIsKept, DataFor, HasEffect, Hangs,
        Spills, Remove, StoredPrivate, StoredWith, Unverifiable;
      data := r.payload;
      if v.Private? {
        StoredPrivateIs(store, v.key);
      }
      if env.policyEnabled && Unverifiable(crypto, v, r, attrs) {
        UnsignedFails(crypto, store, v, r, attrs, AuthPriv, env);
      }
      var found := v in store;
      if found && attrs == store[v].attrs && (attrs.counterAuth || attrs.timeAuth) && r.payload == []
         && (env.userPresent || !env.policyEnabled) {
        status := DeleteUnsigned(v, attrs);
        StaysStoredWith(old(store), store, v, r.payload, attrs, ZERO, mergeTime, env.AroundOf(v), r.payload);
        return;
      }
      if NeedsPresence(v, env) {
        return SecurityViolation, data;
      }
      if attrs.counterAuth {
        return Unsupported, data;
      }
      if attrs.timeAuth {
        var del;
        status, del, data := VerifyTimeBasedPayloadAndUpdate(v, r, attrs, AuthPriv, env);
        StaysStoredWith(old(store), store, v, r.payload, attrs, r.time, mergeTime, env.AroundOf(v), data);
        return;
      }
      if found && (store[v].attrs.counterAuth || store[v].attrs.timeAuth) {
        return WriteProtected, data;
      }
      status := WritePlain(v, r.payload, attrs, env);
      if v.Private? {
        StoredPrivateIs(store, v.key);
      }
      StaysStoredWith(old(store), store, v, r.payload, attrs, ZERO, mergeTime, env.AroundOf(v), r.payload);
    }

    /** The deletion by someone present: the variable first, then its signer's record. */
    method DeleteUnsigned(v: Var, attrs: Attributes) returns (status: Status)
      requires Valid() && v in store && attrs == store[v].attrs
      requires (v.Private? && ValidKey(v.key)) || v.SecureBootEnable? || v.CustomMode?
      modifies this`store, this`faults, this`history, certDbStore
      ensures Valid() && old(history) <= history && faults <= old(faults)
      ensures Unchanged({v, DbFor(attrs.nonVolatile)}) && (!v.Private? ==> Unchanged({v}))
      ensures store != old(store) || status == Success ==> v !in store
      ensures faults == old(faults) ==> status == Success
      ensures v.Private? ==> OnlyRecord(old(store), store, v.key, DbFor(attrs.nonVolatile))
      ensures v.Private? && faults == old(faults) && RecordIsKept(old(store), v.key, attrs.nonVolatile) ==>
        RecordIsKept(store, v.key, attrs.nonVolatile)
    {
      hide Legal, Replay, Nodes, HasKey, Remove, Consistent, CanDropRecord;
      ValidConsistent();
      NodesIfSame(store, old(store), DbFor(attrs.nonVolatile));
      status := UpdateVariable(v, [], Attributes(false, false, false, false, false, false), ZERO,
                               if v.Private? then DropPrivate(v.key) else DropOther(v));
      if v.Private? {
        NodesSame(store, old(store), DbFor(attrs.nonVolatile));
      }
      if status == Success && attrs.timeAuth && v.Private? {
        RecordedCanBeDropped(old(store), v.key, maxCertDbSize);
        SameCanDrop(old(store), store, v.key, attrs.nonVolatile);
        Removed(old(store), DbFor(attrs.nonVolatile), v.key, maxCertDbSize);
        label Deleted:
        status := DeleteCertsFromDb(v.key, attrs.nonVolatile);
        OnlyDbIsUnchanged@Deleted(DbFor(attrs.nonVolatile));
      }
    }

    /** An update as usual. */
    method WritePlain(v: Var, payload: seq<byte>, attrs: Attributes, env: Env) returns (status: Status)
      requires Valid() && !attrs.timeAuth && !IsCertDb(v) && !IsSignatureDb(v) && (v.Private? ==> ValidKey(v.key))
      requires v in store ==> !store[v].attrs.timeAuth
      modifies this`store, this`faults, this`history
      ensures Valid() && old(history) <= history && faults <= old(faults)
      ensures Unchanged({v})
      ensures status != Success ==> store == old(store)
      ensures status == Success ==> Carried(v, payload, attrs, ZERO, env, payload)
      ensures faults == old(faults) ==> (status == Success <==> v in old(store) || payload != [])
      ensures v.Private? ==> OnlyRecord(old(store), store, v.key, DbFor(attrs.nonVolatile))
      ensures v.Private? && RecordIsKept(old(store), v.key, attrs.nonVolatile) ==> RecordIsKept(store, v.key, attrs.nonVolatile)
      ensures v in store ==> !store[v].attrs.timeAuth
    {
      hide Legal, Replay, Allowed, Apply, Consistent, HasKey, Nodes, OnlyRecord, RecordIsKept, DataFor;
      ValidConsistent();
      OutcomeIs(Find(store, v), payload, attrs, ZERO, mergeTime);
      WriteOfIsAllowed(store, v, payload, attrs, ZERO, mergeTime, maxCertDbSize);
      status := UpdateVariable(v, payload, attrs, ZERO, WriteOf(v, Update(Find(store, v), payload, attrs, ZERO, mergeTime)));
      if status == Success {
        DataOfNew(Find(old(store), v), v, payload, attrs, env.AroundOf(v));
      }
      if v.Private? {
        PlainKeepsRecord(old(store), store, v.key, attrs.nonVolatile);
      }
    }

    /** The variables a caller may write: not the ones that only report the platform's state. */
    ghost predicate Writable(v: Var, attrs: Attributes) {
      || v.Pk? || IsSignatureDb(v)
      || (v.Private? && ValidKey(v.key))
      || ((v.SecureBootEnable? || v.CustomMode?) && attrs == NV_BS)
    }

    /** Signature databases stay well formed unless the payload has a list too small for its header. */
    twostate predicate KeepsLists(v: Var, payload: seq<byte>)
      reads this
    {
      old(SignatureDbsOk(store)) && (IsSignatureDb(v) ==> TakesLists(payload)) ==> SignatureDbsOk(store)
    }

    /** A request to PK or a signature database as the dispatch serves it. */
    ghost predicate PassesForKeys(v: Var, r: Request, attrs: Attributes, env: Env)
      reads this
    {
      || PassesForPk(v, r, attrs, v.Pk?, env)
      || (!v.Pk? && !v.Kek? && !StuckForPk(v, r, attrs, false, env) && PassesForKek(v, r, attrs, env))
    }

    /** A request that the code never answers: not even the PK step, or after an error there the KEK step. */
    ghost predicate StuckForKeys(v: Var, r: Request, attrs: Attributes, env: Env)
      reads this
    {
      || StuckForPk(v, r, attrs, v.Pk?, env)
      || (!v.Pk? && !v.Kek? && !(PassesForPk(v, r, attrs, false, env) && HasEffect(v, r, attrs, env)) && StuckForKek(v, r, attrs, env))
    }

    ghost predicate SpillsForKeys(v: Var, r: Request, attrs: Attributes, env: Env)
      reads this
    {
      PassesForKeys(v, r, attrs, env) && Spills(v, r, attrs, env)
    }

    /** AuthVariableLibProcessVariable. */
    method ProcessRequest(v: Var, r: Request, attrs: Attributes, env: Env) returns (status: Status, ghost data: seq<byte>)
      requires Valid() && Writable(v, attrs)
      modifies this`store, this`faults, this`history, this`vendorKeyState, this`platformMode, certDbStore
      ensures Valid() && old(history) <= history && faults <= old(faults)
      ensures old(ModeAgrees()) && SetupMode in old(store) && faults == old(faults) ==>
        (ModeAgrees() <==> !(v.Pk? && old(AppendsNothingToPk(r, attrs, true, env))))
      ensures old(ModeAgrees()) && old(ModeReported()) && !atRuntime && faults == old(faults) ==> ModeReported()
      ensures SetupMode in old(store) ==> SetupMode in store
      ensures (v.Db? || v.Dbx? || v.Dbt? ==> faults == old(faults)) ==> KeepsLists(v, r.payload)
      // variables and records stay in step
      ensures old(SameAttributes(v, attrs)) && v.Private? ==> SameAttributes(v, attrs)
      ensures forall w: Var :: w.Private? && w != v ==> Find(store, w) == Find(old(store), w)
      ensures faults == old(faults) && old(InStep() && (v.Private? ==> SameAttributes(v, attrs))) ==> InStep()
      // in user mode nobody who is not present changes anything that is protected without a signature
      ensures old(platformMode) == USER_MODE && Unsigned(crypto, Call(v, r, attrs, env)) ==>
        platformMode == USER_MODE && Untouched(old(store), store)
      // what is stored, and when
      ensures status == Success && faults == old(faults) ==>
        || (old(DeletedByPresence(v, r, attrs, env)) && v !in store)
        || Carried(v, r.payload, attrs, if attrs.timeAuth then r.time else ZERO, env, data)
      ensures (v.Pk? || IsSignatureDb(v)) && faults == old(faults) && SetupMode in old(store) && !old(SpillsForKeys(v, r, attrs, env)) ==>
        (status == Success <==> old(PassesForKeys(v, r, attrs, env) && HasEffect(v, r, attrs, env)))
      ensures (v.Pk? || IsSignatureDb(v)) && faults == old(faults) && !old(SpillsForKeys(v, r, attrs, env)) ==>
        (status == NoReturn <==> old(StuckForKeys(v, r, attrs, env)))
    {
      hide Legal, Replay, PassesForPk, PassesForKek, NeverVerifiedForPk, StuckForKek, WritesUnsigned, Passing, StoredPrivate, Wrote,
        DataFor, ModeReported, Format, SignatureDbsOk, TakesLists, RecordsInStep, Untouched, Unverifiable;
      if v.Pk? || v.Kek? {
        status, data := ProcessVarWithPk(v, r, attrs, v.Pk?, env);
        UntouchedIfSame(old(store), store);
        TimedAttributes(v, r, attrs, v.Pk?, env);
        UpdateKeepsLists(crypto, old(store), store, v, r.payload, attrs, r.time, mergeTime, env, data);
        InStepApart(old(store), store);
      } else if v.Db? || v.Dbx? || v.Dbt? {
        status, data := ProcessSignatureDb(v, r, attrs, env);
        UntouchedIfSame(old(store), store);
        UnchangedKeepsMode({v, VariableStore.Var.VendorKeysNv, VariableStore.Var.VendorKeys});
        InStepApart(old(store), store);
      } else {
        status, data := ProcessOther(v, r, attrs, env);
        UnchangedKeepsMode({v, DbFor(attrs.nonVolatile)});
      }
    }

    /** The part of the dispatch for all other variables. */
    method ProcessOther(v: Var, r: Request, attrs: Attributes, env: Env) returns (status: Status, ghost data: seq<byte>)
      requires Valid() && Writable(v, attrs) && !v.Pk? && !IsSignatureDb(v)
      modifies this`store, this`faults, this`history, certDbStore
      ensures Valid() && old(history) <= history && faults <= old(faults)
      ensures Unchanged({v, DbFor(attrs.nonVolatile)})
      ensures KeepsLists(v, r.payload)
      ensures old(SameAttributes(v, attrs)) && v.Private? ==> SameAttributes(v, attrs)
      ensures faults == old(faults) && old(InStep() && (v.Private? ==> SameAttributes(v, attrs))) ==> InStep()
      ensures status == Success ==>
        || (old(DeletedByPresence(v, r, attrs, env)) && v !in store)
        || Carried(v, r.payload, attrs, if attrs.timeAuth then r.time else ZERO, env, data)
      ensures Unsigned(crypto, Call(v, r, attrs, env)) ==> Untouched(old(store), store)
    {
      hide Legal, Replay, Passing, StoredPrivate, Wrote, DataFor, Format, SignatureDbsOk, TakesLists, RecordsInStep, RecordIsKept,
        OnlyRecord, Consistent, CanKeepRecords, Untouched, Unverifiable;
      status, data := ProcessVariable(v, r, attrs, env);
      UpdateKeepsLists(crypto, old(store), store, v, r.payload, attrs, r.time, mergeTime, env, data);
      ValidConsistent();
      if v.Private? {
        InStepKeeps(old(store), v.key, attrs.nonVolatile);
        StillInStep(old(store), store, v.key, attrs.nonVolatile, maxCertDbSize);
      } else {
        InStepApart(old(store), store);
      }
      if Unsigned(crypto, Call(v, r, attrs, env)) {
        OneUntouched(old(store), store, v);
      }
    }

    /** The part of the dispatch for db, dbx and dbt: PK first, then KEK. */
    method ProcessSignatureDb(v: Var, r: Request, attrs: Attributes, env: Env) returns (status: Status, ghost data: seq<byte>)
      requires Valid() && IsSignatureDb(v) && !v.Kek?
      modifies this`store, this`faults, this`history, this`vendorKeyState, this`platformMode, certDbStore
      ensures Valid() && old(history) <= history && faults <= old(faults)
      ensures Unchanged({v, VariableStore.Var.VendorKeysNv, VariableStore.Var.VendorKeys}) && platformMode == old(platformMode)
      ensures faults == old(faults) ==> KeepsLists(v, r.payload)
      ensures status == Success ==> attrs.timeAuth
      ensures status == Success && faults == old(faults) ==> Carried(v, r.payload, attrs, r.time, env, data)
      ensures faults == old(faults) && !old(SpillsForKeys(v, r, attrs, env)) ==>
        (status == Success <==> old(PassesForKeys(v, r, attrs, env) && HasEffect(v, r, attrs, env)))
      ensures faults == old(faults) && !old(SpillsForKeys(v, r, attrs, env)) ==>
        (status == NoReturn <==> old(StuckForKeys(v, r, attrs, env)))
      ensures old(Guarded(store, platformMode, env)) && Unverifiable(crypto, v, r, attrs) ==> status != Success && store == old(store)
    {
      hide Legal, Replay, PassesForPk, NeverVerifiedForPk, KekStep, Wrote, SignatureDbsOk, TakesLists, Format, DataFor, Guarded,
        Unverifiable;
      GuardedPk(v, r, attrs, false, env);
      TimedAttributes(v, r, attrs, false, env);
      var before := faults;
      status, data := ProcessVarWithPk(v, r, attrs, false, env);
      if status != Success && status != NoReturn {
        status, data := SecondChance(v, r, attrs, env, faults < before);
      }
      if faults == before {
        UpdateKeepsLists(crypto, old(store), store, v, r.payload, attrs, r.time, mergeTime, env, data);
      }
    }

    /** KEK after an error with PK. If a write has failed there, the filter may have changed the payload in
        place, and what KEK sees is left open. */
    method SecondChance(v: Var, r: Request, attrs: Attributes, env: Env, writeFailed: bool) returns (status: Status, ghost data: seq<byte>)
      requires Valid() && IsSignatureDb(v)
      modifies this`store, this`faults, this`history, this`vendorKeyState, certDbStore
      ensures Valid() && old(history) <= history && faults <= old(faults)
      ensures Unchanged({v, VariableStore.Var.VendorKeysNv, VariableStore.Var.VendorKeys})
      ensures status == Success ==> attrs.timeAuth
      ensures !writeFailed && faults == old(faults) && !old(SpillsForKek(v, r, attrs, env)) ==>
        && (status == Success <==> old(PassesForKek(v, r, attrs, env) && HasEffect(v, r, attrs, env)))
        && (status == NoReturn <==> old(StuckForKek(v, r, attrs, env)))
      ensures !writeFailed && (status == Success || Find(store, v) != Find(old(store), v)) ==>
        Carried(v, r.payload, attrs, r.time, env, data)
      ensures !writeFailed && Find(store, v) != Find(old(store), v) ==> Format(crypto, v, r.payload, env) == Accepted
      ensures !writeFailed && old(Guarded(store, platformMode, env)) && Unverifiable(crypto, v, r, attrs) ==>
        status != Success && store == old(store)
    {
      hide Legal, Replay, KekStep, Wrote, Format, DataFor, Hangs, Guarded, Unverifiable;
      if writeFailed {
        var payload := *;
        status, data := ProcessVarWithKek(v, r.(payload := payload), attrs, env);
      } else {
        status, data := ProcessVarWithKek(v, r, attrs, env);
      }
    }

    /** Any run of requests, unless a store write fails. The mode agrees all along, and is reported until
        runtime; only appending nothing to PK is left out, see AppendNothing. Records stay in step with
        variables whose attributes do not change, and signature databases well formed under payloads of
        lists that take their headers. */
    method ProcessRequests(requests: seq<Call>)
      requires Valid() && ModeAgrees() && SetupMode in store
      requires forall c :: c in requests ==>
                 Writable(c.v, c.attrs) && !(c.v.Pk? && c.attrs.append && c.request.payload == [])
      modifies this`store, this`faults, this`history, this`vendorKeyState, this`platformMode, certDbStore
      ensures Valid() && old(history) <= history && faults <= old(faults)
      ensures faults == old(faults) ==> ModeAgrees() && SetupMode in store
      ensures faults == old(faults) && !atRuntime && old(ModeReported()) ==> ModeReported()
      ensures faults == old(faults) && old(InStep()) && FixedAttributes(old(store), requests) ==> InStep()
      ensures faults == old(faults) && old(SignatureDbsOk(store))
              && (forall c :: c in requests && IsSignatureDb(c.v) ==> TakesLists(c.request.payload)) ==>
                SignatureDbsOk(store)
      ensures old(platformMode) == USER_MODE && (forall c :: c in requests ==> Unsigned(crypto, c)) ==>
                platformMode == USER_MODE && Untouched(old(store), store)
    {
      hide Legal, Replay, Untouched, Unsigned, ModeReported, ModeAgrees, Writable, Wrote, PassesForKeys, RecordsInStep, SignatureDbsOk, TakesLists;
      UntouchedIfSame(store, store);
      for i := 0 to |requests|
        invariant Valid() && old(history) <= history && faults <= old(faults)
        invariant faults == old(faults) ==> ModeAgrees() && SetupMode in store
        invariant faults == old(faults) && !atRuntime && old(ModeReported()) ==> ModeReported()
        invariant faults == old(faults) && old(InStep()) && FixedAttributes(old(store), requests) ==> InStep() && FixedAttributes(store, requests)
        invariant faults == old(faults) && old(SignatureDbsOk(store))
                  && (forall c :: c in requests && IsSignatureDb(c.v) ==> TakesLists(c.request.payload)) ==>
                    SignatureDbsOk(store)
        invariant old(platformMode) == USER_MODE && (forall c :: c in requests ==> Unsigned(crypto, c)) ==>
                    platformMode == USER_MODE && Untouched(old(store), store)
      {
        var c := requests[i];
        var status;
        ghost var data;
        label Step:
        status, data := ProcessRequest(c.v, c.request, c.attrs, c.env);
        StillFixed(old@Step(store), store, requests, c);
        if Untouched(old(store), old@Step(store)) && Untouched(old@Step(store), store) {
          UntouchedTwice(old(store), old@Step(store), store);
        }
      }
    }

    // ----- initialization

    /** Certificates and common authenticated variables are in step. */
    ghost predicate InStep()
      reads this
    {
      RecordsInStep(store)
    }

    /** A boot has only what was kept without power. */
    ghost predicate FreshBoot()
      reads this
    {
      !atRuntime && forall v :: v in store ==> store[v].attrs.nonVolatile
    }

    /** In user mode "SecureBootEnable" follows the boot configuration. */
    method AdjustSecureBootEnable(bootConfigPolicy: Option<nat>) returns (status: Status, secureBootEnable: byte)
      requires Valid()
      modifies this`store, this`faults, this`history
      ensures Valid() && old(history) <= history && faults <= old(faults)
      ensures Unchanged({SecureBootEnable})
      ensures faults == old(faults) ==> status == Success
      ensures secureBootEnable == if platformMode == USER_MODE && bootConfigPolicy != Some(0) then 1 else 0
      ensures status == Success && platformMode == USER_MODE ==>
        SecureBootEnable in store && store[SecureBootEnable].data == [if bootConfigPolicy == Some(0) then 0 else 1]
      ensures platformMode != USER_MODE ==> store == old(store)
    {
      hide Legal, Replay;
      status, secureBootEnable := Success, 0;
      if platformMode == USER_MODE {
        secureBootEnable := if bootConfigPolicy == Some(0) then 0 else 1;
        if SecureBootEnable !in store || store[SecureBootEnable].data != [secureBootEnable] {
          status := UpdateNamed(SecureBootEnable, [secureBootEnable], NV_BS);
        }
      }
    }

    /** "SecureBoot" follows both; custom mode ends. */
    method InitializeSecureBoot(bootConfigPolicy: Option<nat>) returns (status: Status)
      requires Valid()
      modifies this`store, this`faults, this`history
      ensures Valid() && old(history) <= history && faults <= old(faults)
      ensures Unchanged({SecureBootEnable, SecureBoot, CustomMode})
      ensures faults == old(faults) ==> status == Success
      ensures status == Success ==> SecureBoot in store
      ensures status == Success ==>
        store[SecureBoot] == Variable([if platformMode == USER_MODE && bootConfigPolicy != Some(0) then 1 else 0], BS_RT, ZERO)
      ensures status == Success ==> CustomMode in store && store[CustomMode] == Variable([STANDARD_SECURE_BOOT_MODE], NV_BS, ZERO)
      ensures status == Success && platformMode == USER_MODE ==>
        SecureBootEnable in store && store[SecureBootEnable].data == [if bootConfigPolicy == Some(0) then 0 else 1]
      ensures platformMode != USER_MODE ==> Find(store, SecureBootEnable) == Find(old(store), SecureBootEnable)
    {
      hide Legal, Replay;
      var secureBootEnable;
      status, secureBootEnable := AdjustSecureBootEnable(bootConfigPolicy);
      if status != Success {
        return;
      }
      var secureBootMode: byte := if secureBootEnable == 1 && platformMode == USER_MODE then 1 else 0;
      status := UpdateNamed(SecureBoot, [secureBootMode], BS_RT);
      if status != Success {
        return;
      }
      status := UpdateNamed(CustomMode, [STANDARD_SECURE_BOOT_MODE], NV_BS);
    }

    /** The variables that report the mode and what signatures are supported. */
    method ReportMode() returns (status: Status)
      requires Valid() && (platformMode == USER_MODE || platformMode == SETUP_MODE)
      modifies this`store, this`faults, this`history
      ensures Valid() && old(history) <= history && faults <= old(faults)
      ensures Unchanged({SetupMode, SignatureSupport})
      ensures faults == old(faults) ==> status == Success
      ensures status == Success ==> SetupMode in store && store[SetupMode] == Variable([platformMode], BS_RT, ZERO)
      ensures status == Success ==> SignatureSupport in store && store[SignatureSupport] == Variable(signatureSupport, BS_RT, ZERO)
    {
      hide Legal, Replay;
      status := UpdateNamed(SetupMode, [platformMode], BS_RT);
      if status != Success {
        return;
      }
      status := UpdateNamed(SignatureSupport, signatureSupport, BS_RT);
    }

    /** Secure Boot is on exactly with a platform key and a boot configuration that permits it. */
    ghost predicate SecureBootFollows(permitted: bool)
      reads this
    {
      SecureBoot in store && (store[SecureBoot].data == [1] <==> Pk in store && permitted)
    }

    /** Set up the variables that report the mode and Secure Boot. */
    method InitializeMode(bootConfigPolicy: Option<nat>) returns (status: Status)
      requires Valid()
      modifies this`store, this`faults, this`history, this`platformMode
      ensures Valid() && old(history) <= history && faults <= old(faults)
      ensures Unchanged({SetupMode, SignatureSupport, SecureBootEnable, SecureBoot, CustomMode})
      ensures ModeAgrees()
      ensures faults == old(faults) ==> status == Success
      ensures status == Success ==> ModeReported() && SecureBootFollows(bootConfigPolicy != Some(0))
      ensures status == Success ==> Reports(old(store), store, signatureSupport, bootConfigPolicy)
    {
      hide Legal, Replay;
      platformMode := if Pk in store then USER_MODE else SETUP_MODE;
      status := ReportMode();
      if status != Success {
        return;
      }
      status := InitializeSecureBoot(bootConfigPolicy);
    }

    /** Start a certificate database of a storage that holds no common authenticated variable. */
    method CreateCertDb(db: Var) returns (status: Status)
      requires Valid() && Allowed(store, NewDb(db), maxCertDbSize)
      modifies this`store, this`faults, this`history
      ensures Valid() && old(history) <= history && faults <= old(faults)
      ensures OnlyDbChanged(db)
      ensures faults == old(faults) ==> status == Success
      ensures status == Success ==> db in store && Nodes(store, db) == []
      ensures status != Success ==> store == old(store)
    {
      hide Legal, Replay, Update, Allowed;
      NewDbIs(store, db, maxCertDbSize, mergeTime);
      status := UpdateVariable(db, Le32(4), DbAttributes(db), ZERO, NewDb(db));
    }

    /** Create "certdb" where there is none, and clean it up where there is one; "certdbv" starts empty. */
    method InitializeCertDbs() returns (status: Status)
      requires Valid() && FreshPrivates()
      modifies this`store, this`faults, this`history, this`shortages, certDbStore
      ensures Valid() && old(history) <= history && faults <= old(faults) && shortages <= old(shortages)
      ensures Unchanged({CertDbNv, CertDbVolatile})
      ensures faults == old(faults) && shortages == old(shortages) ==> status == Success
      ensures status == Success ==> InStep() && CertDbNv in store && CertDbVolatile in store
      ensures status == Success ==> Nodes(store, CertDbNv) == Survivors(old(Nodes(store, CertDbNv)), old(store))
    {
      hide Legal, Replay, HasKey, Nodes, Survivors;
      SurvivorsNone(store);
      if CertDbNv !in store {
        NothingStored(store, maxCertDbSize, history);
        status := CreateCertDb(CertDbNv);
      } else {
        status := CleanCertsFromDb();
      }
      OnlyDbIsUnchanged(CertDbNv);
      if status != Success {
        return;
      }
      label Nv:
      status := CreateCertDb(CertDbVolatile);
      OnlyDbIsUnchanged@Nv(CertDbVolatile);
      ghost var before := old@Nv(store);
      NodesSame(store, before, CertDbNv);
      SamePrivates(store, before, CertDbVolatile);
      if status == Success {
        ValidConsistent();
        PrivatesKept(store, old(store));
        CoveredIsInStep(store, maxCertDbSize);
      }
    }

    /** Nothing private is stored without power yet. */
    ghost predicate FreshPrivates()
      reads this
    {
      forall k :: StoredPrivate(store, k) ==> store[Private(k)].attrs.nonVolatile
    }

    /** The state of the vendor's keys is kept over a boot, and starts out valid. */
    method InitializeVendorKeys() returns (status: Status)
      requires Valid()
      modifies this`store, this`faults, this`history, this`vendorKeyState
      ensures Valid() && old(history) <= history && faults <= old(faults)
      ensures Unchanged({VariableStore.Var.VendorKeysNv, VariableStore.Var.VendorKeys})
      ensures faults == old(faults) ==> status == Success
      ensures status == Success ==> VendorState(old(store), store, vendorKeyState)
    {
      if VendorKeysNv in store {
        vendorKeyState := if store[VendorKeysNv].data == [] then 0 else store[VendorKeysNv].data[0];
      } else {
        vendorKeyState := VENDOR_KEYS_VALID;
        status := UpdateNamed(VendorKeysNv, [vendorKeyState], NV_BS_AT);
        if status != Success {
          return;
        }
      }
      status := UpdateNamed(VendorKeys, [vendorKeyState], BS_RT);
    }

    /** The three hash contexts and the buffer for certificate databases. */
    method AllocateContexts() returns (ok: bool)
      modifies this`shortages
      ensures shortages <= old(shortages) && (ok <==> shortages == old(shortages))
    {
      ok := true;
      for i := 0 to 4
        invariant ok && shortages == old(shortages)
      {
        ok := Allocate();
        if !ok {
          return;
        }
      }
    }

    /** The first part of AuthVariableLibInitialize: memory, then the mode. */
    method AllocateAndReport(bootConfigPolicy: Option<nat>) returns (status: Status)
      requires Valid()
      modifies this`store, this`faults, this`history, this`shortages, this`platformMode
      ensures Valid() && old(history) <= history && faults <= old(faults) && shortages <= old(shortages)
      ensures Unchanged({SetupMode, SignatureSupport, SecureBootEnable, SecureBoot, CustomMode})
      ensures faults == old(faults) && shortages == old(shortages) ==> status == Success
      ensures status == Success ==>
        && ModeAgrees() && ModeReported() && SecureBootFollows(bootConfigPolicy != Some(0))
        && Reports(old(store), store, signatureSupport, bootConfigPolicy)
    {
      hide Legal, Replay, ModeAgrees, ModeReported, SecureBootFollows;
      var ok := AllocateContexts();
      if !ok {
        return OutOfResources;
      }
      status := InitializeMode(bootConfigPolicy);
    }

    /** AuthVariableLibInitialize, after a boot on whatever a breakdown has left. */
    method Initialize(bootConfigPolicy: Option<nat>) returns (status: Status)
      requires Valid() && FreshBoot()
      modifies this`store, this`faults, this`history, this`shortages, this`platformMode, this`vendorKeyState, certDbStore
      ensures Valid() && old(history) <= history && faults <= old(faults) && shortages <= old(shortages)
      ensures faults == old(faults) && shortages == old(shortages) ==> status == Success
      ensures status == Success ==> ModeAgrees() && ModeReported() && SecureBootFollows(bootConfigPolicy != Some(0))
      ensures status == Success ==> InStep() && CertDbNv in store && CertDbVolatile in store
      ensures status == Success ==> Nodes(store, CertDbNv) == Survivors(old(Nodes(store, CertDbNv)), old(store))
      // every named variable has its value, and nothing is written unsigned while the policy engine is on
      ensures status == Success ==> Reports(old(store), store, signatureSupport, bootConfigPolicy) && VendorState(old(store), store, vendorKeyState)
      ensures status == Success && Pk in store ==> forall isPk, env: Env :: env.policyEnabled ==> !WritesUnsigned(isPk, env)
      // all other variables are as they were
      ensures Unchanged({SetupMode, SignatureSupport, SecureBootEnable, SecureBoot, CustomMode, CertDbNv, CertDbVolatile,
                         VariableStore.Var.VendorKeysNv, VariableStore.Var.VendorKeys})
    {
      hide Legal, Replay, Update, HasKey, StoredPrivate, Nodes, Find, Survivors, ModeAgrees, ModeReported, SecureBootFollows, InStep,
        Reports, VendorState, WritesUnsigned;
      status := AllocateAndReport(bootConfigPolicy);
      UnchangedKeepsPrivates({SetupMode, SignatureSupport, SecureBootEnable, SecureBoot, CustomMode});
      if status != Success {
        return;
      }
      FreshPrivatesKept();
      label Mode:
      status := InitializeKeys();
      UnchangedKeepsMode@Mode({CertDbNv, CertDbVolatile, VariableStore.Var.VendorKeysNv, VariableStore.Var.VendorKeys});
      ReportsKept(old(store), old@Mode(store), store, signatureSupport, bootConfigPolicy);
      VendorStateKept(old@Mode(store), old(store), store, vendorKeyState);
      if status == Success && Pk in store {
        SignedAfterBoot(old(store), bootConfigPolicy);
      }
    }

    /** The rest of it, once the mode is set up. */
    method InitializeKeys() returns (status: Status)
      requires Valid() && FreshPrivates()
      modifies this`store, this`faults, this`history, this`shortages, this`vendorKeyState, certDbStore
      ensures Valid() && old(history) <= history && faults <= old(faults) && shortages <= old(shortages)
      ensures Unchanged({CertDbNv, CertDbVolatile, VariableStore.Var.VendorKeysNv, VariableStore.Var.VendorKeys})
      ensures faults == old(faults) && shortages == old(shortages) ==> status == Success
      ensures status == Success ==> InStep() && CertDbNv in store && CertDbVolatile in store
      ensures status == Success ==> Nodes(store, CertDbNv) == Survivors(old(Nodes(store, CertDbNv)), old(store))
      ensures status == Success ==> VendorState(old(store), store, vendorKeyState)
    {
      hide Legal, Replay, Update, HasKey, StoredPrivate, Nodes, Find, Survivors, RecordsInStep, VendorState;
      status := InitializeCertDbs();
      if status != Success {
        return;
      }
      label CertDbs:
      status := InitializeVendorKeys();
      UnchangedKeepsPrivates@CertDbs({VariableStore.Var.VendorKeysNv, VariableStore.Var.VendorKeys});
      UnchangedKeepsRecords@CertDbs({VariableStore.Var.VendorKeysNv, VariableStore.Var.VendorKeys});
      VendorStateKept(old@CertDbs(store), old(store), store, vendorKeyState);
    }

    /** After a boot nobody writes without a signature while there is a PK and the policy engine is on. */
    lemma SignedAfterBoot(before: Store, bootConfigPolicy: Option<nat>)
      requires ModeAgrees() && Pk in store && Reports(before, store, signatureSupport, bootConfigPolicy)
      ensures forall isPk, env: Env :: env.policyEnabled ==> !WritesUnsigned(isPk, env)
    {
    }

    twostate lemma UnchangedKeepsRecords(except: set<Var>)
      requires Unchanged(except) && forall v :: v in except ==> !v.Private? && !IsCertDb(v)
      ensures old(InStep()) ==> InStep()
    {
      hide RecordsInStep;
      InStepApart(old(store), store);
    }

    twostate lemma UnchangedKeepsMode(except: set<Var>)
      requires Unchanged(except) && Pk !in except && SetupMode !in except && SecureBoot !in except
      requires platformMode == old(platformMode)
      ensures ModeAgrees() <==> old(ModeAgrees())
      ensures ModeReported() <==> old(ModeReported())
      ensures forall permitted :: SecureBootFollows(permitted) <==> old(SecureBootFollows(permitted))
    {
    }

    /** What writes to other variables leave as it is. */
    twostate lemma UnchangedKeepsPrivates(except: set<Var>)
      requires Unchanged(except) && forall v :: v in except ==> !v.Private?
      ensures forall k :: Find(store, Private(k)) == Find(old(store), Private(k))
      ensures forall k :: StoredPrivate(store, k) <==> StoredPrivate(old(store), k)
      ensures forall ns :: Survivors(ns, store) == Survivors(ns, old(store))
      ensures CertDbNv !in except ==> Nodes(store, CertDbNv) == Nodes(old(store), CertDbNv)
      ensures CertDbNv !in except ==> (CertDbNv in store <==> CertDbNv in old(store))
      ensures CertDbVolatile !in except ==> (CertDbVolatile in store <==> CertDbVolatile in old(store))
    {
      hide Survivors;
      PrivatesKept(store, old(store));
      forall ns
        ensures Survivors(ns, store) == Survivors(ns, old(store))
      {
        SurvivorsSame(ns, store, old(store));
      }
    }

    twostate lemma FreshPrivatesKept()
      requires old(FreshBoot())
      requires forall k :: Find(store, Private(k)) == Find(old(store), Private(k))
      ensures FreshPrivates()
    {
      forall k | StoredPrivate(store, k)
        ensures store[Private(k)].attrs.nonVolatile
      {
        assert Find(store, Private(k)) == Find(old(store), Private(k));
      }
    }
  }

  /** What an update that took place did to PK. */
  lemma PkAfter(before: Option<Variable>, after: Option<Variable>, payload: seq<byte>, attrs: Attributes, time: Time,
                merge: (Time, Time) -> Time, around: Around, data: seq<byte>)
    requires Wrote(before, after, Pk, payload, attrs, time, merge, around, data)
    ensures after.Some? <==> payload != [] || attrs.append
    ensures payload == [] ==> before.Some?
  {
    DataOfNew(before, Pk, payload, attrs, around);
    hide DataFor;
  }

  lemma ListsOfAccepted(c: Crypto, v: Var, payload: seq<byte>, env: Env)
    requires IsSignatureDb(v) && Format(c, v, payload, env) == Accepted
    requires payload == [] || (|payload| < 0x1_0000_0000 && Whole(payload))
    ensures SignatureList.Parse(payload).Some?
  {
    if payload != [] {
      FormatOfLists(c, v, payload, env);
    }
  }

  /** An update by an accepted payload of lists, and any to other variables, keeps them well formed. */
  lemma UpdateKeepsLists(c: Crypto, s: Store, t: Store, v: Var, payload: seq<byte>, attrs: Attributes, time: Time,
                         merge: (Time, Time) -> Time, env: Env, data: seq<byte>)
    requires forall w :: IsSignatureDb(w) && w != v ==> Find(t, w) == Find(s, w)
    requires IsSignatureDb(v) && Find(t, v) != Find(s, v) ==>
               Wrote(Find(s, v), Find(t, v), v, payload, attrs, time, merge, env.AroundOf(v), data)
               && Format(c, v, payload, env) == Accepted
    ensures SignatureDbsOk(s) && (IsSignatureDb(v) ==> TakesLists(payload)) ==> SignatureDbsOk(t)
  {
    hide Wrote, Format, Whole, SignatureList.Parse;
    if SignatureDbsOk(s) && (IsSignatureDb(v) ==> TakesLists(payload)) {
      if IsSignatureDb(v) && Find(t, v) != Find(s, v) {
        ListsOfAccepted(c, v, payload, env);
        WroteKeepsLists(s, t, v, payload, attrs, time, merge, env.AroundOf(v), data);
      } else {
        SameLists(s, t);
      }
    }
  }

  lemma SameLists(s: Store, t: Store)
    requires SignatureDbsOk(s) && forall w :: IsSignatureDb(w) ==> Find(t, w) == Find(s, w)
    ensures SignatureDbsOk(t)
  {
    hide SignatureList.Parse;
    forall w | w in t && IsSignatureDb(w)
      ensures SignatureList.Parse(t[w].data).Some?
    {
      assert Find(t, w) == Some(t[w]);
    }
  }

  lemma EmptyFormat(c: Crypto, v: Var, payload: seq<byte>, env: Env)
    ensures payload == [] ==> Format(c, v, payload, env) == Accepted
  {
  }

  lemma PassingFormat(c: Crypto, s: Store, v: Var, r: Request, attrs: Attributes, authType: AuthVarType, env: Env)
    ensures Passing(c, s, v, r, attrs, authType, env) ==> Format(c, v, r.payload, env) == Accepted
  {
  }

  lemma OutcomeIs(old_: Option<Variable>, data: seq<byte>, attrs: Attributes, time: Time, merge: (Time, Time) -> Time)
    ensures var o := Update(old_, data, attrs, time, merge);
      && (o.Refused? <==> old_.None? && data == [])
      && (o.Deleted? <==> old_.Some? && data == [] && !attrs.append)
  {
  }

  /** The single write an update comes to. */
  ghost function WriteOf(v: Var, o: Outcome): Write {
    match o
    case Refused => Reboot
    case Deleted => if v.Private? then DropPrivate(v.key) else DropOther(v)
    case Stored(x) => if v.Private? then SetPrivate(v.key, x) else SetOther(v, x)
  }

  lemma WriteOfIsAllowed(s: Store, v: Var, data: seq<byte>, attrs: Attributes, time: Time, merge: (Time, Time) -> Time, max: nat)
    requires Consistent(s, max) && !IsCertDb(v) && max < 0x8000_0000 && (v.Private? ==> ValidKey(v.key))
    requires v.Private? && data != [] && attrs.timeAuth && !(v in s && attrs.append) ==>
               HasKey(Nodes(s, DbFor(attrs.nonVolatile)), v.key)
    ensures var o := Update(Find(s, v), data, attrs, time, merge);
      o != Refused ==> Allowed(s, WriteOf(v, o), max) && Apply(s, WriteOf(v, o), max) == Result(s, v, o)
  {
    hide Consistent, HasKey, Nodes, ValidKey, Update, Apply, Result, StoredPrivate;
    var o := Update(Find(s, v), data, attrs, time, merge);
    if v.Private? {
      KeptAttributes(s, v.key, data, attrs, time, merge, max);
    }
    if o != Refused {
      WriteOfApplies(s, v, o, max);
    }
  }

  lemma WriteOfApplies(s: Store, v: Var, o: Outcome, max: nat)
    requires o != Refused && max < 0x8000_0000 && Allowed(s, WriteOf(v, o), max)
    ensures Apply(s, WriteOf(v, o), max) == Result(s, v, o)
  {
    hide Allowed;
  }

  /** A common variable is stored with the attributes it had, or with those given. */
  lemma KeptAttributes(s: Store, k: Key, data: seq<byte>, attrs: Attributes, time: Time, merge: (Time, Time) -> Time, max: nat)
    requires Consistent(s, max)
    requires data != [] && attrs.timeAuth && !(Private(k) in s && attrs.append) ==> HasKey(Nodes(s, DbFor(attrs.nonVolatile)), k)
    ensures var o := Update(Find(s, Private(k)), data, attrs, time, merge);
      && (data == [] && o.Stored? ==> Private(k) in s)
      && (o.Stored? && o.variable.attrs.timeAuth ==> HasKey(Nodes(s, DbFor(o.variable.attrs.nonVolatile)), k))
  {
    hide HasKey, Nodes, DbOk, ValidKey, ValidKeys;
    if Private(k) in s {
      assert StoredPrivate(s, k) ==> HasKey(Nodes(s, DbFor(s[Private(k)].attrs.nonVolatile)), k);
    }
  }

  lemma DataOfNew(before: Option<Variable>, v: Var, payload: seq<byte>, attrs: Attributes, around: Around)
    ensures before.None? || !IsSignatureDb(v) || payload == [] || !attrs.append ==>
              DataFor(before, v, payload, attrs, around) == SignatureFilter.Done(payload)
  {
    hide SignatureFilter.FilterBytes;
  }

  lemma WroteAttributes(before: Option<Variable>, after: Option<Variable>, v: Var, payload: seq<byte>, attrs: Attributes,
                        time: Time, merge: (Time, Time) -> Time, around: Around, data: seq<byte>)
    ensures Wrote(before, after, v, payload, attrs, time, merge, around, data) && after.Some?
            && (before.Some? ==> before.value.attrs.(append := false) == attrs.(append := false)) ==>
              after.value.attrs.(append := false) == attrs.(append := false)
    ensures Wrote(before, after, v, payload, attrs, time, merge, around, data) && (payload != [] || attrs.append) && !IsSignatureDb(v) ==>
              after.Some?
  {
    DataOfNew(before, v, payload, attrs, around);
    hide DataFor;
  }

  lemma StaysStoredWith(s: Store, t: Store, v: Var, payload: seq<byte>, attrs: Attributes, time: Time,
                        merge: (Time, Time) -> Time, around: Around, data: seq<byte>)
    ensures v !in t || Find(t, v) == Find(s, v) || Wrote(Find(s, v), Find(t, v), v, payload, attrs, time, merge, around, data) ==>
              StoredWith(s, v, attrs) ==> StoredWith(t, v, attrs)
  {
    WroteAttributes(Find(s, v), Find(t, v), v, payload, attrs, time, merge, around, data);
    hide Wrote;
  }

  lemma PlainKeepsRecord(s: Store, t: Store, k: Key, nonVolatile: bool)
    requires Find(t, DbFor(nonVolatile)) == Find(s, DbFor(nonVolatile)) && (Private(k) in s ==> !s[Private(k)].attrs.timeAuth)
    ensures OnlyRecord(s, t, k, DbFor(nonVolatile))
    ensures RecordIsKept(s, k, nonVolatile) ==> RecordIsKept(t, k, nonVolatile)
  {
    hide HasKey, Nodes;
    NodesSame(t, s, DbFor(nonVolatile));
  }

  lemma StoredPrivateIs(s: Store, k: Key)
    ensures StoredPrivate(s, k) <==> Private(k) in s && s[Private(k)].attrs.timeAuth
  {
  }

  lemma WroteDeletion(before: Option<Variable>, after: Option<Variable>, v: Var, attrs: Attributes,
                      time: Time, merge: (Time, Time) -> Time, around: Around, data: seq<byte>)
    requires Wrote(before, after, v, [], attrs, time, merge, around, data) && before.Some? && !attrs.append
    ensures after.None?
  {
  }

  lemma SameCanDrop(s: Store, t: Store, k: Key, nonVolatile: bool)
    requires Find(s, DbFor(nonVolatile)) == Find(t, DbFor(nonVolatile))
    ensures CanDropRecord(s, k, nonVolatile) <==> CanDropRecord(t, k, nonVolatile)
  {
  }

  lemma CannotDrop(s: Store, k: Key, nonVolatile: bool)
    ensures !CanDropRecord(s, k, nonVolatile) ==> !HasKey(Nodes(s, DbFor(nonVolatile)), k)
  {
    NoKeyInNone(k);
  }

  lemma NodesIfSame(s: Store, t: Store, db: Var)
    ensures s == t ==> Nodes(s, db) == Nodes(t, db)
  {
  }

  lemma Removed(s: Store, db: Var, k: Key, max: nat)
    requires Consistent(s, max) && IsCertDb(db)
    ensures !HasKey(Remove(Nodes(s, db), k), k)
    ensures forall j :: HasKey(Remove(Nodes(s, db), k), j) ==> HasKey(Nodes(s, db), j)
  {
    hide CertDb.Parse, HasKey, Remove, ValidKeys, Covered;
    NoneDistinct();
    forall j
      ensures j == k ==> !HasKey(Remove(Nodes(s, db), k), j)
      ensures HasKey(Remove(Nodes(s, db), k), j) ==> HasKey(Nodes(s, db), j)
    {
      KeysRemove(Nodes(s, db), k, j);
    }
  }

  lemma NoneDistinct()
    ensures Distinct([])
  {
  }

  lemma WroteTime(before: Option<Variable>, after: Option<Variable>, v: Var, payload: seq<byte>, attrs: Attributes,
                  time: Time, merge: (Time, Time) -> Time, around: Around, data: seq<byte>)
    ensures Wrote(before, after, v, payload, attrs, time, merge, around, data) && payload != [] && !attrs.append ==>
              after.Some? && after.value.data == payload && after.value.time == time
    ensures Wrote(before, after, v, payload, attrs, time, merge, around, data) && payload == [] ==> data == []
  {
    hide DataFor;
    DataOfNew(before, v, payload, attrs, around);
  }

  /** From an empty platform: PK is enrolled on the path without checks, then nothing is appended to it with
      the policy engine off. The platform is in setup mode again, with PK stored. */
  method AppendNothing(crypto: Crypto, mergeTime: (Time, Time) -> Time, signatureSupport: seq<byte>, maxCertDbSize: nat,
                       first: Env, second: Env, time: Time)
    returns (lib: AuthVariables)
    requires signatureSupport != [] && 4 <= maxCertDbSize < 0x8000_0000
    requires first.policyEnabled && !first.userPresent && !second.policyEnabled
    ensures lib.Valid() && lib.platformMode == SETUP_MODE && Pk in lib.store
  {
    lib := new AuthVariables.Boot(crypto, mergeTime, true, false, signatureSupport, maxCertDbSize, map[], 0, 0, []);
    var status := lib.Initialize(None);
    EnrolAndAppendNothing(lib, first, second, time);
  }

  /** The two requests, on a platform in setup mode. */
  method EnrolAndAppendNothing(lib: AuthVariables, first: Env, second: Env, time: Time)
    requires lib.Valid() && lib.ModeAgrees() && SetupMode in lib.store && lib.faults == 0 && Pk !in lib.store
    requires lib.requireSelfSignedPk && !lib.enforceSelfSignedPk
    requires first.policyEnabled && !first.userPresent && !second.policyEnabled
    modifies lib, lib.certDbStore
    ensures lib.Valid() && lib.platformMode == SETUP_MODE && Pk in lib.store
  {
    hide Format, Wrote;
    var enrolment := Request(time, true, true, [], [1]);
    var status;
    ghost var data;
    status, data := lib.ProcessVarWithPk(Pk, enrolment, NV_BS_RT_AT, true, first);
    PkAfter(Find(old(lib.store), Pk), Find(lib.store, Pk), [1], NV_BS_RT_AT, time, lib.mergeTime, first.AroundOf(Pk), data);
    status, data := lib.ProcessVarWithPk(Pk, Request(time, true, true, [], []), NV_BS_RT_AT.(append := true), true, second);
  }

  /** Memory that completes twelve bytes to a list which is accepted. */
  predicate CompletesRemainder(c: Crypto, typ: seq<byte>, env: Env)
    requires |typ| == 16
  {
    && typ != CERT_X509_GUID && Supported(c.rules.items, ListHead(typ, 12, 0, 48))
    && forall i :: 0 <= i < 16 ==> env.behind(i) == (typ[12..] + Le32(12) + Le32(0) + Le32(48))[i]
  }

  lemma RemainderFormat(c: Crypto, typ: seq<byte>, env: Env)
    requires |typ| == 16 && CompletesRemainder(c, typ, env)
    ensures Format(c, Db, typ[..12], env) == Accepted
  {
    hide ReadLe32, Le32, Supported, Checked;
    RemainderIsAccepted(c.rules, typ, env.behind);
  }

  lemma RemainderNever(typ: seq<byte>, x: Variable, payload: seq<byte>, attrs: Attributes, env: Env)
    requires |typ| == 16 && x.data == typ[..12] && attrs.append && env.scratchAvailable
    requires forall i :: 0 <= i < 16 ==> env.behindStored(Db, i) == 0
    requires SignatureList.Parse(payload).Some? && SignatureList.Signatures(SignatureList.Parse(payload).value) != []
    ensures payload != [] && DataFor(Some(x), Db, payload, attrs, env.AroundOf(Db)) == SignatureFilter.Never
  {
    hide SignatureFilter.FilterBytes, ReadLe32;
    SignatureFilter.RemainderHangs(typ[..12], env.BehindData(Db), Buffer(payload, env.behind));
  }

  /** In setup mode, twelve bytes that the memory behind them makes a list are stored as db; an append of
      any signature, while zeros stand behind the stored bytes, then never returns. */
  method AppendToRemainder(lib: AuthVariables, typ: seq<byte>, payload: seq<byte>, first: Env, second: Env, time: Time)
    returns (stored: Status, appended: Status)
    requires lib.Valid() && lib.faults == 0 && lib.platformMode == SETUP_MODE && Db !in lib.store
    requires |typ| == 16 && CompletesRemainder(lib.crypto, typ, first)
    requires second.scratchAvailable && forall i :: 0 <= i < 16 ==> second.behindStored(Db, i) == 0
    requires Format(lib.crypto, Db, payload, second) == Accepted
    requires SignatureList.Parse(payload).Some? && SignatureList.Signatures(SignatureList.Parse(payload).value) != []
    modifies lib, lib.certDbStore
    ensures stored == Success && appended == NoReturn
  {
    hide SignatureList.Parse, SignatureList.Signatures, SignatureFilter.FilterBytes, Passing, NeverVerified,
      CompletesRemainder, Format, Legal, Replay;
    ghost var data;
    RemainderFormat(lib.crypto, typ, first);
    stored, data := lib.ProcessVarWithPk(Db, Request(time, true, true, [], typ[..12]), NV_BS_RT_AT, false, first);
    var append := NV_BS_RT_AT.(append := true);
    RemainderNever(typ, lib.store[Db], payload, append, second);
    appended, data := lib.ProcessVarWithPk(Db, Request(time, true, true, [], payload), append, false, second);
  }

  lemma PrivatesKept(s: Store, t: Store)
    requires forall v: Var :: v.Private? ==> (v in s <==> v in t) && (v in s ==> s[v] == t[v])
    ensures forall k :: Find(s, Private(k)) == Find(t, Private(k))
    ensures forall k :: StoredPrivate(s, k) <==> StoredPrivate(t, k)
  {
  }

  lemma {:induction false} SurvivorsSame(ns: seq<Node>, s: Store, t: Store)
    requires forall k :: StoredPrivate(s, k) <==> StoredPrivate(t, k)
    ensures Survivors(ns, s) == Survivors(ns, t)
  {
    if ns != [] {
      SurvivorsSame(ns[1..], s, t);
    }
  }

  /** A store without "certdb" has no non-volatile common authenticated variables. */
  lemma NothingStored(s: Store, max: nat, h: seq<Write>)
    requires max < 0x8000_0000 && Legal(h, max) && s == Replay(h, max) && CertDbNv !in s
    ensures forall k :: StoredPrivate(s, k) ==> !s[Private(k)].attrs.nonVolatile
    ensures Nodes(s, CertDbNv) == []
  {
    RunIsConsistent(h, max);
    hide Legal, Replay;
    forall k | StoredPrivate(s, k)
      ensures !s[Private(k)].attrs.nonVolatile
    {
      NoKeyInNone(k);
    }
  }

  /** What is covered has a node; the rest is up to the nodes. */
  lemma CoveredIsInStep(s: Store, max: nat)
    requires Consistent(s, max) && forall k :: HasKey(Nodes(s, CertDbNv), k) ==> StoredPrivate(s, k)
    requires forall k :: StoredPrivate(s, k) ==> s[Private(k)].attrs.nonVolatile
    requires Nodes(s, CertDbVolatile) == []
    ensures RecordsInStep(s)
  {
    hide HasKey, Nodes;
    forall k, nonVolatile
      ensures HasKey(Nodes(s, DbFor(nonVolatile)), k) <==> StoredPrivate(s, k) && s[Private(k)].attrs.nonVolatile == nonVolatile
    {
      NoKeyInNone(k);
    }
  }

  lemma NewDbIs(s: Store, db: Var, max: nat, merge: (Time, Time) -> Time)
    requires max < 0x8000_0000 && Allowed(s, NewDb(db), max)
    ensures Update(Find(s, db), Le32(4), DbAttributes(db), ZERO, merge) == Stored(DbVariable(db, CertDb.Empty()))
    ensures Nodes(s[db := DbVariable(db, CertDb.Empty())], db) == []
  {
    EmptyParses();
  }

  lemma NodesSame(s: Store, t: Store, db: Var)
    requires Find(s, db) == Find(t, db)
    ensures Nodes(s, db) == Nodes(t, db) && (db in s <==> db in t)
  {
  }

  lemma PrivateFormatOk(c: Crypto, v: Var, payload: seq<byte>, env: Env)
    ensures v.Private? || payload == [] ==> Format(c, v, payload, env) == Accepted
  {
  }

  lemma NoKekNoSignature(c: Crypto, s: Store, v: Var, r: Request, attrs: Attributes, stored: bool, env: Env)
    requires Kek !in s
    ensures Authentication(c, s, v, r, attrs, AuthKek, stored, env) == Rejected
  {
  }

  lemma NodeAdded(ns: seq<Node>, k: Key)
    ensures forall cert :: HasKey(ns + [Node(k, cert)], k)
  {
    forall cert
      ensures HasKey(ns + [Node(k, cert)], k)
    {
      IndexOfAppend(ns, Node(k, cert), k);
    }
  }

  /** The first node of the list whose variable is not stored as an authenticated one. */
  function FirstOrphan(ns: seq<Node>, s: Store): (k: Option<Key>)
  {
    if ns == [] then None
    else if !StoredPrivate(s, ns[0].key) then Some(ns[0].key)
    else FirstOrphan(ns[1..], s)
  }

  lemma HasKeyAt(ns: seq<Node>, i: nat)
    requires i < |ns|
    ensures HasKey(ns, ns[i].key)
  {
  }

  /** An orphan is taken out by its key, not by its position; that is the same node even where keys
      repeat, and it is not one of those to keep. */
  lemma {:induction false} RemoveOrphan(ns: seq<Node>, k: Key, s: Store)
    requires HasKey(ns, k) && !StoredPrivate(s, k)
    ensures Survivors(Remove(ns, k), s) == Survivors(ns, s) && |Remove(ns, k)| == |ns| - 1
  {
    if ns[0].key == k {
      assert Remove(ns, k) == ns[1..];
    } else {
      RemoveOrphan(ns[1..], k, s);
      assert Remove(ns, k) == [ns[0]] + Remove(ns[1..], k);
    }
  }

  lemma SamePrivates(s: Store, t: Store, db: Var)
    requires IsCertDb(db) && forall v :: v != db ==> Find(s, v) == Find(t, v)
    ensures forall k :: StoredPrivate(s, k) <==> StoredPrivate(t, k)
  {
    forall k
      ensures StoredPrivate(s, k) <==> StoredPrivate(t, k)
    {
      assert Find(s, Private(k)) == Find(t, Private(k));
    }
  }

  lemma SurvivorsNone(s: Store)
    ensures Survivors([], s) == [] && forall k :: !HasKey([], k)
  {
  }

  lemma {:induction false} AllSurvive(ns: seq<Node>, s: Store)
    requires FirstOrphan(ns, s).None?
    ensures Survivors(ns, s) == ns
    ensures forall k :: HasKey(ns, k) ==> StoredPrivate(s, k)
  {
    if ns != [] {
      AllSurvive(ns[1..], s);
      assert forall k :: HasKey(ns, k) ==> k == ns[0].key || HasKey(ns[1..], k);
    }
  }

  lemma {:induction false} OrphanSameStore(ns: seq<Node>, s: Store, t: Store)
    requires forall k :: StoredPrivate(s, k) <==> StoredPrivate(t, k)
    ensures FirstOrphan(ns, s) == FirstOrphan(ns, t)
  {
    if ns != [] {
      OrphanSameStore(ns[1..], s, t);
    }
  }

  lemma EmptyDbHasNoNodes(data: seq<byte>)
    requires CertDb.Parse(data).Some? && |data| == 4
    ensures CertDb.Parse(data).value == []
  {
    hide ReadLe32;
    assert data[4..] == [];
  }

  lemma NoNodesIsEmpty(data: seq<byte>)
    requires CertDb.Parse(data).Some? && |data| < 0x1_0000_0000
    ensures CertDb.Parse(data).value == [] ==> |data| == 4
  {
    hide ReadLe32;
    ParseExact(data, []);
  }

  lemma NodeRemovedIs(b: seq<byte>, k: Key)
    requires CertDb.Parse(b).Some? && HasKey(CertDb.Parse(b).value, k) && |b| < 0x1_0000_0000
    ensures var ns := CertDb.Parse(b).value;
      var i := IndexOf(ns, k);
      && AllValid(ns) && 4 <= OffsetOf(ns, i) && OffsetOf(ns, i) + ns[i].Size() <= |b|
      && NodeRemoved(b, k) == DeleteBytes(b, OffsetOf(ns, i), ns[i].Size())
      && 0 < |DeleteBytes(b, OffsetOf(ns, i), ns[i].Size())|
  {
    hide CertDb.Parse, ReadLe32, Node.Valid;
    ParseRemove(b, CertDb.Parse(b).value, IndexOf(CertDb.Parse(b).value, k));
    RemovedLength(b, k);
  }
}
