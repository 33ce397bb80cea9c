/** One-time confirmation tokens of safety/confirmation.py. */
module Confirmation {
  import opened Basics
  import opened Policy

  /** A field of a request; `Absent` fields are left out of the encoding, also inside nested values. */
  datatype Field =
    | Absent
    | Text(text: string)
    | Number(number: int)
    | Flag(flag: bool)
    | Nested(fields: map<string, Field>)

  datatype Request = Request(sessionId: string, fields: map<string, Field>)

  /** A field as it is encoded, without absent parts. */
  function Encoded(f: Field): Field {
    match f
    case Nested(fields) => Nested(map k | k in fields && fields[k] != Absent :: Encoded(fields[k]))
    case _ => f
  }

  /** The digest of a request body: SHA-256 is taken to be injective. */
  datatype Fingerprint = Digest(sessionId: string, fields: map<string, Field>)

  function FingerprintOf(request: Request): Fingerprint {
    Digest(request.sessionId, Encoded(Nested(request.fields)).fields)
  }

  /** The value of a field, absent or not there being the same. */
  function FieldIn(fields: map<string, Field>, name: string): Field {
    if name in fields then fields[name] else Absent
  }

  function FieldOf(request: Request, name: string): Field {
    FieldIn(request.fields, name)
  }

  /** Fields that differ at most in parts that are absent in one and not there in the other. */
  ghost predicate SameField(f: Field, g: Field)
    decreases f
  {
    if f.Nested? && g.Nested? then
      && (forall name :: name in f.fields && name in g.fields ==> SameField(f.fields[name], g.fields[name]))
      && (forall name :: name in f.fields && name !in g.fields ==> f.fields[name] == Absent)
      && (forall name :: name in g.fields && name !in f.fields ==> g.fields[name] == Absent)
    else f == g
  }

  lemma {:induction false} EncodedExactly(f: Field, g: Field)
    ensures Encoded(f) == Encoded(g) <==> SameField(f, g)
    decreases f
  {
    if f.Nested? && g.Nested? {
      forall name | name in f.fields && name in g.fields
        ensures Encoded(f.fields[name]) == Encoded(g.fields[name]) <==> SameField(f.fields[name], g.fields[name])
      {
        EncodedExactly(f.fields[name], g.fields[name]);
      }
      var p, q := Encoded(f).fields, Encoded(g).fields;
      if p == q {
        forall name | name in f.fields && name in g.fields ensures SameField(f.fields[name], g.fields[name]) {
          assert name in p <==> name in q;
        }
        assert forall name :: name in f.fields && name !in g.fields ==> name !in q;
        assert forall name :: name in g.fields && name !in f.fields ==> name !in p;
      }
      if SameField(f, g) {
        forall name ensures (name in p <==> name in q) && (name in p ==> p[name] == q[name]) {
          if name in f.fields && name in g.fields { AbsentBoth(f.fields[name], g.fields[name]); }
        }
        assert p == q;
      }
    }
  }

  lemma AbsentBoth(f: Field, g: Field)
    requires SameField(f, g)
    ensures f == Absent <==> g == Absent
  {}

  /** Changing any material argument, nested ones included, and nothing else, changes the fingerprint. */
  lemma FingerprintExact(a: Request, b: Request)
    ensures FingerprintOf(a) == FingerprintOf(b)
      <==> a.sessionId == b.sessionId && forall name :: SameField(FieldOf(a, name), FieldOf(b, name))
  {
    EncodedExactly(Nested(a.fields), Nested(b.fields));
    NestedExactly(a.fields, b.fields);
    assert Encoded(Nested(a.fields)) == Nested(FingerprintOf(a).fields);
    assert Encoded(Nested(b.fields)) == Nested(FingerprintOf(b).fields);
    assert forall name :: FieldOf(a, name) == FieldIn(a.fields, name) && FieldOf(b, name) == FieldIn(b.fields, name);
  }

  /** Giving a field another text, number or flag, or another session, changes the fingerprint; leaving a field out and
      naming it absent do not. */
  lemma FingerprintChanges(a: Request, name: string, f: Field, sessionId: string)
    requires !f.Nested? && f != FieldOf(a, name)
    ensures FingerprintOf(a.(fields := a.fields[name := f])) != FingerprintOf(a)
    ensures sessionId != a.sessionId ==> FingerprintOf(a.(sessionId := sessionId)) != FingerprintOf(a)
    ensures name !in a.fields ==> FingerprintOf(a.(fields := a.fields[name := Absent])) == FingerprintOf(a)
  {
    hide FingerprintOf;
    FingerprintExact(a.(fields := a.fields[name := f]), a);
    FingerprintExact(a.(sessionId := sessionId), a);
    FingerprintExact(a.(fields := a.fields[name := Absent]), a);
    assert FieldOf(a.(fields := a.fields[name := f]), name) == f;
    forall other ensures SameField(FieldOf(a, other), FieldOf(a, other)) { SameItself(FieldOf(a, other)); }
  }

  lemma {:induction false} SameItself(f: Field)
    ensures SameField(f, f)
    decreases f
  {
    if f.Nested? {
      forall name | name in f.fields ensures SameField(f.fields[name], f.fields[name]) { SameItself(f.fields[name]); }
    }
  }

  lemma NestedExactly(f: map<string, Field>, g: map<string, Field>)
    ensures SameField(Nested(f), Nested(g)) <==> forall name :: SameField(FieldIn(f, name), FieldIn(g, name))
  {
    if forall name :: SameField(FieldIn(f, name), FieldIn(g, name)) {
      forall name ensures name in f && name in g ==> SameField(f[name], g[name])
        ensures name in f && name !in g ==> f[name] == Absent
        ensures name in g && name !in f ==> g[name] == Absent
      {
        assert SameField(FieldIn(f, name), FieldIn(g, name));
      }
    }
  }

  datatype Confirmed = Confirmed(operation: Operation, fingerprint: Fingerprint, expiresAt: real)

  type Records = map<string, Confirmed>

  datatype ConfirmationError = NotFound | Expired | OperationMismatch | RequestMismatch

  /** The token is known, unexpired, and for this operation on this request. */
  predicate Authorizes(records: Records, token: string, operation: Operation, request: Request, now: real) {
    && token in records
    && now <= records[token].expiresAt
    && records[token].operation == operation
    && records[token].fingerprint == FingerprintOf(request)
  }

  class ConfirmationTokenStore {
    const ttlSeconds: int
    var records: Records

    constructor (ttlSeconds: int)
      ensures this.ttlSeconds == ttlSeconds && records == map[]
    {
      this.ttlSeconds := ttlSeconds;
      records := map[];
    }

    /** `token` is the new random token, `now` the reading of the clock. */
    method Issue(operation: Operation, request: Request, token: string, now: real)
      modifies this
      ensures records == old(records)[token := Confirmed(operation, FingerprintOf(request), now + ttlSeconds as real)]
    {
      records := records[token := Confirmed(operation, FingerprintOf(request), now + ttlSeconds as real)];
    }

    /** A token is consumed by being presented, whether or not it authorizes the operation. */
    method Verify(token: string, operation: Operation, request: Request, now: real)
      returns (r: Result<(), ConfirmationError>)
      modifies this
      ensures records == old(records) - {token}
      ensures r.Success? <==> Authorizes(old(records), token, operation, request, now)
      ensures r == Failure(NotFound) <==> token !in old(records)
      ensures r == Failure(Expired) <==> token in old(records) && old(records)[token].expiresAt < now
      ensures r == Failure(OperationMismatch) <==>
        token in old(records) && now <= old(records)[token].expiresAt && old(records)[token].operation != operation
      ensures r == Failure(RequestMismatch) <==>
        && token in old(records) && now <= old(records)[token].expiresAt && old(records)[token].operation == operation
        && old(records)[token].fingerprint != FingerprintOf(request)
    {
      if token !in records { return Failure(NotFound); }
      var record := records[token];
      records := records - {token};
      if record.expiresAt < now { return Failure(Expired); }
      if record.operation != operation { return Failure(OperationMismatch); }
      if record.fingerprint != FingerprintOf(request) { return Failure(RequestMismatch); }
      r := Success(());
    }
  }
}
