/** The variable store as the authentication code sees it: an atomic map, and the discipline that keeps
    the certificate databases in step with it whatever write the platform breaks down after. */
module VariableStore {
  import opened Bytes
  import opened CertDb
  import opened ListWalk
  import opened TimeStamp
  import SignatureFilter
  import SignatureList

  /** Variables the code treats by name, and all others. */
  datatype Var =
    | Pk | Kek | Db | Dbx | Dbt
    | SetupMode | SignatureSupport | SecureBoot | SecureBootEnable | CustomMode | VendorKeysNv | VendorKeys
    | CertDbNv | CertDbVolatile
    | Private(key: Key)

  datatype Attributes = Attributes(nonVolatile: bool, bootService: bool, runtime: bool,
                                   counterAuth: bool, timeAuth: bool, append: bool)

  const NV_BS := Attributes(true, true, false, false, false, false)
  const BS_RT := Attributes(false, true, true, false, false, false)
  const NV_BS_AT := Attributes(true, true, false, false, true, false)
  const BS_RT_AT := Attributes(false, true, true, false, true, false)
  const NV_BS_RT_AT := Attributes(true, true, true, false, true, false)

  datatype Variable = Variable(data: seq<byte>, attrs: Attributes, time: Time)

  type Store = map<Var, Variable>

  /** What an update without store failure leaves under a name, or that it is refused. */
  datatype Outcome = Refused | Deleted | Stored(variable: Variable)

  /** The update service. Data of size zero deletes, unless it is appended; appending nothing to a
      variable changes nothing; there is nothing to delete where there is no variable. */
  function Update(old_: Option<Variable>, data: seq<byte>, attrs: Attributes, time: Time,
                  merge: (Time, Time) -> Time): Outcome
  {
    match old_
    case None => if data == [] then Refused else Stored(Variable(data, attrs.(append := false), time))
    case Some(v) =>
      if attrs.append then
        if data == [] then Stored(v) else Stored(v.(data := v.data + data, time := merge(v.time, time)))
      else if data == [] then Deleted
      else Stored(Variable(data, attrs, time))
  }

  function Find(s: Store, v: Var): Option<Variable> {
    if v in s then Some(s[v]) else None
  }

  function Result(s: Store, v: Var, o: Outcome): Store {
    match o
    case Refused => s
    case Deleted => s - {v}
    case Stored(x) => s[v := x]
  }

  /** The variable an outcome leaves. */
  function Left(before: Option<Variable>, o: Outcome): Option<Variable> {
    match o
    case Refused => before
    case Deleted => None
    case Stored(x) => Some(x)
  }

  /** What an update finds around it: scratch memory, and what stands behind the stored data and behind
      the payload. */
  datatype Around = Around(scratch: bool, behindStored: Memory, behindPayload: Memory)

  /** What is written for a payload. Appended to a stored signature database it is filtered, if there is
      scratch memory. */
  function DataFor(before: Option<Variable>, v: Var, payload: seq<byte>, attrs: Attributes, around: Around): SignatureFilter.Filtering {
    if before.Some? && attrs.append && IsSignatureDb(v) && payload != [] && around.scratch
    then SignatureFilter.FilterBytes(Buffer(before.value.data, around.behindStored), Buffer(payload, around.behindPayload))
    else SignatureFilter.Done(payload)
  }

  /** One update of a variable took place, with the data for a payload; any data, if the filter overran. */
  ghost predicate Wrote(before: Option<Variable>, after: Option<Variable>, v: Var, payload: seq<byte>, attrs: Attributes,
                        time: Time, merge: (Time, Time) -> Time, around: Around, data: seq<byte>)
  {
    && (match DataFor(before, v, payload, attrs, around)
        case Done(bytes) => data == bytes
        case Never => false
        case Overruns => true)
    && var o := Update(before, data, attrs, time, merge);
       o != Refused && after == Left(before, o)
  }

  /** A well-formed payload leaves a well-formed signature database well formed; what an append adds is
      what the lists did not hold. */
  lemma WroteLists(before: Option<Variable>, after: Option<Variable>, v: Var, payload: seq<byte>, attrs: Attributes,
                   time: Time, merge: (Time, Time) -> Time, around: Around, data: seq<byte>)
    requires Wrote(before, after, v, payload, attrs, time, merge, around, data)
    requires SignatureList.Parse(payload).Some? && (before.Some? ==> SignatureList.Parse(before.value.data).Some?)
    ensures IsSignatureDb(v) && after.Some? ==> SignatureList.Parse(after.value.data).Some?
    ensures IsSignatureDb(v) && before.Some? && attrs.append && around.scratch ==>
              after.Some? && SignatureList.Parse(after.value.data)
              == Some(SignatureList.Parse(before.value.data).value
                      + SignatureList.Filter(SignatureList.Parse(before.value.data).value, SignatureList.Parse(payload).value))
  {
    hide SignatureList.Parse, SignatureList.Filter, SignatureFilter.FilterBytes;
    if before.Some? && attrs.append && IsSignatureDb(v) {
      var old_ := before.value.data;
      if payload == [] {
        SignatureList.FilterNothing(SignatureList.Parse(old_).value, payload);
      } else if around.scratch {
        SignatureFilter.FilterBytesExact(Buffer(old_, around.behindStored), Buffer(payload, around.behindPayload));
      }
      if data == [] {
        assert old_ + [] == old_;
      }
      SignatureList.ParseConcat(old_, data);
    }
  }

  /** A payload of well-formed lists, or one for a variable that is no signature database, keeps the
      signature databases well formed. */
  lemma WroteKeepsLists(s: Store, t: Store, v: Var, payload: seq<byte>, attrs: Attributes, time: Time,
                        merge: (Time, Time) -> Time, around: Around, data: seq<byte>)
    requires SignatureDbsOk(s)
    requires forall w :: IsSignatureDb(w) && w != v ==> Find(t, w) == Find(s, w)
    requires Find(t, v) == Find(s, v) || Wrote(Find(s, v), Find(t, v), v, payload, attrs, time, merge, around, data)
    requires IsSignatureDb(v) && Find(t, v) != Find(s, v) ==> SignatureList.Parse(payload).Some?
    ensures SignatureDbsOk(t)
  {
    hide SignatureList.Parse, Wrote;
    if IsSignatureDb(v) && Find(t, v) != Find(s, v) {
      WroteLists(Find(s, v), Find(t, v), v, payload, attrs, time, merge, around, data);
    }
    forall w | w in t && IsSignatureDb(w)
      ensures SignatureList.Parse(t[w].data).Some?
    {
      assert Find(t, w) == Some(t[w]);
      if w != v || Find(t, v) == Find(s, v) {
        assert w in s && s[w] == t[w];
      }
    }
  }

  predicate IsCertDb(v: Var) {
    v.CertDbNv? || v.CertDbVolatile?
  }

  /** Variables whose appended data is filtered against the stored lists. */
  predicate IsSignatureDb(v: Var) {
    v.Kek? || v.Db? || v.Dbx? || v.Dbt?
  }

  function DbFor(nonVolatile: bool): Var {
    if nonVolatile then CertDbNv else CertDbVolatile
  }

  function DbAttributes(db: Var): Attributes {
    if db.CertDbNv? then NV_BS_RT_AT else BS_RT_AT
  }

  /** The nodes of a stored certificate database. */
  function Nodes(s: Store, db: Var): seq<Node> {
    if db in s && CertDb.Parse(s[db].data).Some? then CertDb.Parse(s[db].data).value else []
  }

  ghost predicate DbOk(s: Store, db: Var, max: nat) {
    db in s ==>
      && CertDb.Parse(s[db].data).Some? && Distinct(CertDb.Parse(s[db].data).value)
      && 4 <= |s[db].data| <= max && s[db].attrs == DbAttributes(db) && s[db].time == ZERO
  }

  /** A common authenticated variable that is stored, as opposed to a plain one. */
  predicate StoredPrivate(s: Store, k: Key) {
    Private(k) in s && s[Private(k)].attrs.timeAuth
  }

  ghost predicate ValidKeys(s: Store) {
    forall k :: Private(k) in s ==> ValidKey(k)
  }

  /** Every stored common authenticated variable has its signer's certificate in the database that
      belongs to its storage. */
  ghost predicate Covered(s: Store) {
    forall k :: StoredPrivate(s, k) ==> HasKey(Nodes(s, DbFor(s[Private(k)].attrs.nonVolatile)), k)
  }

  /** The signature databases hold whole numbers of well-formed lists. */
  ghost predicate SignatureDbsOk(s: Store) {
    forall v :: v in s && IsSignatureDb(v) ==> SignatureList.Parse(s[v].data).Some?
  }

  ghost predicate Consistent(s: Store, max: nat) {
    && DbOk(s, CertDbNv, max) && DbOk(s, CertDbVolatile, max)
    && ValidKeys(s) && Covered(s)
  }

  // ----- single store writes

  datatype Write =
    | SetOther(v: Var, x: Variable)
    | DropOther(v: Var)
    | NewDb(db: Var)
    | AddNode(db: Var, node: Node)
    | DropNode(db: Var, key: Key)
    | SetPrivate(k: Key, x: Variable)
    | DropPrivate(k: Key)
    | Reboot

  function DbVariable(db: Var, data: seq<byte>): Variable {
    Variable(data, DbAttributes(db), ZERO)
  }

  /** What a loss of power leaves: the non-volatile variables. */
  function NonVolatile(s: Store): Store {
    map v | v in s && s[v].attrs.nonVolatile :: s[v]
  }

  /** The order the code keeps to: a common authenticated variable is stored only when its
      certificate is, and a certificate goes only when its variable has gone. */
  ghost predicate Allowed(s: Store, w: Write, max: nat) {
    match w
    case SetOther(v, x) => !v.Private? && !IsCertDb(v)
    case DropOther(v) => !v.Private? && !IsCertDb(v)
    case NewDb(db) =>
      IsCertDb(db) && 4 <= max && forall k :: StoredPrivate(s, k) ==> DbFor(s[Private(k)].attrs.nonVolatile) != db
    case AddNode(db, n) =>
      && IsCertDb(db) && db in s && n.Valid() && !HasKey(Nodes(s, db), n.key)
      && 4 <= |s[db].data| && |s[db].data| + n.Size() <= max
    case DropNode(db, k) =>
      && IsCertDb(db) && db in s && CertDb.Parse(s[db].data).Some? && HasKey(Nodes(s, db), k)
      && (StoredPrivate(s, k) ==> DbFor(s[Private(k)].attrs.nonVolatile) != db)
    case SetPrivate(k, x) =>
      ValidKey(k) && (x.attrs.timeAuth ==> HasKey(Nodes(s, DbFor(x.attrs.nonVolatile)), k))
    case DropPrivate(k) => true
    case Reboot => true
  }

  ghost function NodeRemoved(b: seq<byte>, k: Key): seq<byte>
    requires CertDb.Parse(b).Some? && HasKey(CertDb.Parse(b).value, k)
  {
    var ns := CertDb.Parse(b).value;
    ParseRemove(b, ns, IndexOf(ns, k));
    DeleteBytes(b, OffsetOf(ns, IndexOf(ns, k)), ns[IndexOf(ns, k)].Size())
  }

  ghost function Apply(s: Store, w: Write, max: nat): Store
    requires max < 0x8000_0000 && Allowed(s, w, max)
  {
    match w
    case SetOther(v, x) => s[v := x]
    case DropOther(v) => s - {v}
    case NewDb(db) => s[db := DbVariable(db, CertDb.Empty())]
    case AddNode(db, n) => s[db := DbVariable(db, InsertBytes(s[db].data, n))]
    case DropNode(db, k) => s[db := DbVariable(db, NodeRemoved(s[db].data, k))]
    case SetPrivate(k, x) => s[Private(k) := x]
    case DropPrivate(k) => s - {Private(k)}
    case Reboot => NonVolatile(s)
  }

  // ----- runs of writes, over any number of boots

  /** A sequence of writes and power losses, each write allowed where it happens. */
  ghost predicate Legal(h: seq<Write>, max: nat)
    requires max < 0x8000_0000
    decreases |h|, 0
  {
    h == [] || (Legal(h[..|h| - 1], max) && Allowed(Replay(h[..|h| - 1], max), h[|h| - 1], max))
  }

  /** The store such a sequence leaves, from an empty one. */
  ghost function Replay(h: seq<Write>, max: nat): Store
    requires max < 0x8000_0000 && Legal(h, max)
    decreases |h|, 1
  {
    if h == [] then map[] else Apply(Replay(h[..|h| - 1], max), h[|h| - 1], max)
  }

  lemma LegalStep(h: seq<Write>, w: Write, max: nat)
    requires max < 0x8000_0000 && Legal(h, max) && Allowed(Replay(h, max), w, max)
    ensures Legal(h + [w], max) && Replay(h + [w], max) == Apply(Replay(h, max), w, max)
  {
    assert (h + [w])[..|h|] == h;
  }

  lemma {:induction false} LegalPrefix(h: seq<Write>, n: nat, max: nat)
    requires max < 0x8000_0000 && Legal(h, max) && n <= |h|
    ensures Legal(h[..n], max)
  {
    if n < |h| {
      LegalPrefix(h[..|h| - 1], n, max);
      assert h[..|h| - 1][..n] == h[..n];
    } else {
      assert h[..n] == h;
    }
  }

  lemma NodesAfter(s: Store, w: Write, max: nat)
    requires max < 0x8000_0000 && Consistent(s, max) && Allowed(s, w, max) && (w.AddNode? || w.DropNode? || w.NewDb?)
    ensures var t := Apply(s, w, max);
      && DbOk(t, w.db, max)
      && Nodes(t, w.db) == match w
                           case AddNode(_, n) => Nodes(s, w.db) + [n]
                           case DropNode(_, k) => Remove(Nodes(s, w.db), k)
                           case _ => []
  {
    hide CertDb.Parse, InsertBytes, DeleteBytes, IndexOf, OffsetOf, Node.Valid, ReadLe32;
    var ns := Nodes(s, w.db);
    match w
    case NewDb(_) => EmptyParses();
    case AddNode(_, n) =>
      ParseAppend(s[w.db].data, ns, n);
      InsertLength(s[w.db].data, n);
      IndexOfDistinct(ns, n);
    case DropNode(_, k) =>
      ParseRemove(s[w.db].data, ns, IndexOf(ns, k));
      LookupRemove(ns, k, k);
      RemovedLength(s[w.db].data, k);
  }

  lemma EmptyParses()
    ensures CertDb.Parse(CertDb.Empty()) == Some([]) && |CertDb.Empty()| == 4
  {
    ParseExact(CertDb.Empty(), []);
  }

  lemma InsertLength(b: seq<byte>, n: Node)
    requires 4 <= |b| && |b| + n.Size() < 0x1_0000_0000 && n.Valid()
    ensures |InsertBytes(b, n)| == |b| + n.Size()
  {
  }

  lemma RemovedLength(b: seq<byte>, k: Key)
    requires CertDb.Parse(b).Some? && HasKey(CertDb.Parse(b).value, k)
    ensures 4 <= |NodeRemoved(b, k)| <= |b|
  {
    hide ReadLe32;
    var ns := CertDb.Parse(b).value;
    ParseRemove(b, ns, IndexOf(ns, k));
  }

  lemma IndexOfDistinct(ns: seq<Node>, n: Node)
    requires Distinct(ns) && !HasKey(ns, n.key)
    ensures Distinct(ns + [n])
  {
  }

  lemma HasKeyAfter(ns: seq<Node>, w: Write, k: Key)
    requires Distinct(ns)
    ensures w.AddNode? && HasKey(ns, k) ==> HasKey(ns + [w.node], k)
    ensures w.DropNode? && HasKey(ns, k) && k != w.key ==> HasKey(Remove(ns, w.key), k)
  {
    if w.AddNode? {
      IndexOfAppend(ns, w.node, k);
    }
    if w.DropNode? {
      LookupRemove(ns, w.key, k);
    }
  }

  /** One allowed write, or a power loss, keeps the store consistent. */
  lemma WriteKeepsConsistent(s: Store, w: Write, max: nat)
    requires max < 0x8000_0000 && Consistent(s, max) && Allowed(s, w, max)
    ensures Consistent(Apply(s, w, max), max)
  {
    hide CertDb.Parse, InsertBytes, NodeRemoved, HasKey, Remove, Node.Valid, Distinct, ValidKey;
    var t := Apply(s, w, max);
    if w.AddNode? || w.DropNode? || w.NewDb? {
      NodesAfter(s, w, max);
      forall k | StoredPrivate(t, k)
        ensures HasKey(Nodes(t, DbFor(t[Private(k)].attrs.nonVolatile)), k)
      {
        HasKeyAfter(Nodes(s, w.db), w, k);
        assert StoredPrivate(s, k);
      }
    } else {
      forall k | StoredPrivate(t, k)
        ensures HasKey(Nodes(t, DbFor(t[Private(k)].attrs.nonVolatile)), k)
      {
        assert !(w.SetPrivate? && w.k == k) ==> StoredPrivate(s, k);
      }
    }
  }

  /** Every state that any run of allowed writes and power losses reaches is consistent. */
  lemma {:induction false} RunIsConsistent(h: seq<Write>, max: nat)
    requires max < 0x8000_0000 && Legal(h, max)
    ensures Consistent(Replay(h, max), max)
  {
    if h != [] {
      RunIsConsistent(h[..|h| - 1], max);
      WriteKeepsConsistent(Replay(h[..|h| - 1], max), h[|h| - 1], max);
    }
  }

  /** Wherever a run is cut short, what power loss leaves has a certificate node in "certdb" for every
      common authenticated variable it has, and its "certdb" is well formed with distinct keys. */
  lemma CrashLeavesCovered(h: seq<Write>, n: nat, max: nat)
    requires max < 0x8000_0000 && Legal(h, max) && n <= |h|
    ensures Legal(h[..n], max)
    ensures var s := NonVolatile(Replay(h[..n], max));
      && DbOk(s, CertDbNv, max) && CertDbVolatile !in s
      && forall k :: StoredPrivate(s, k) ==> CertDbNv in s && HasKey(Nodes(s, CertDbNv), k)
  {
    LegalPrefix(h, n, max);
    hide Legal, Replay, CertDb.Parse, HasKey, Distinct;
    RunIsConsistent(h[..n], max);
    var r := Replay(h[..n], max);
    WriteKeepsConsistent(r, Reboot, max);
    var s := NonVolatile(r);
    forall k | StoredPrivate(s, k)
      ensures CertDbNv in s && HasKey(Nodes(s, CertDbNv), k)
    {
      NoKeyInNone(k);
    }
  }

  lemma NoKeyInNone(k: Key)
    ensures !HasKey([], k)
  {
  }
}
