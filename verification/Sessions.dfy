/**
 The session record of src/session/session.c: a value, and the struct whose setters
 and copy routine may fail to duplicate a string.
 */
module Sessions {
  import opened Wrappers

  datatype SessionState = Active | Bound

  datatype Session = Session(
    id: Option<string>,
    userId: Option<string>,
    state: SessionState,
    publicKey: Option<string>,
    algorithm: Option<string>,
    challenge: Option<string>,
    expiresAt: int,
    hasExpires: bool,
    createdAt: int)

  /** What opendbsc_session_init leaves behind. */
  const BLANK := Session(None, None, Active, None, None, None, 0, false, 0)

  /** A stored session is dead once the clock is past its expiry. */
  predicate Expired(s: Session, now: int) {
    s.hasExpires && now > s.expiresAt
  }

  /** Which of the five string duplications of one copy would succeed. */
  datatype StringAlloc = StringAlloc(id: bool, userId: bool, publicKey: bool, algorithm: bool, challenge: bool)

  /** Only the fields that hold a string need memory. */
  predicate CopySucceeds(s: Session, a: StringAlloc) {
    && (s.id.Some? ==> a.id)
    && (s.userId.Some? ==> a.userId)
    && (s.publicKey.Some? ==> a.publicKey)
    && (s.algorithm.Some? ==> a.algorithm)
    && (s.challenge.Some? ==> a.challenge)
  }

  /** The value of a field after an attempt to overwrite it. */
  function Overwritten(field: Option<string>, value: Option<string>, allocOk: bool): Option<string> {
    if value.None? || allocOk then value else field
  }

  /** `t` has the scalar fields of `s`, and each string field is that of `s` or null. */
  predicate PartOf(t: Session, s: Session) {
    && t.state == s.state && t.expiresAt == s.expiresAt
    && t.hasExpires == s.hasExpires && t.createdAt == s.createdAt
    && t.id in {None, s.id} && t.userId in {None, s.userId} && t.publicKey in {None, s.publicKey}
    && t.algorithm in {None, s.algorithm} && t.challenge in {None, s.challenge}
  }

  class SessionStruct {
    var id: Option<string>
    var userId: Option<string>
    var state: SessionState
    var publicKey: Option<string>
    var algorithm: Option<string>
    var challenge: Option<string>
    var expiresAt: int
    var hasExpires: bool
    var createdAt: int

    function Value(): Session
      reads this
    {
      Session(id, userId, state, publicKey, algorithm, challenge, expiresAt, hasExpires, createdAt)
    }

    constructor ()
      ensures Value() == BLANK
    {
      id, userId, publicKey, algorithm, challenge := None, None, None, None, None;
      state, expiresAt, hasExpires, createdAt := Active, 0, false, 0;
    }

    /** Releases every string and resets the record. */
    method Free()
      modifies this
      ensures Value() == BLANK
    {
      id, userId, publicKey, algorithm, challenge := None, None, None, None, None;
      state, expiresAt, hasExpires, createdAt := Active, 0, false, 0;
    }

    /** Duplicates a string before it gives up the old one, so a failure keeps the field. */
    static method SetString(field: Option<string>, value: Option<string>, allocOk: bool)
        returns (ok: bool, field': Option<string>)
      ensures ok == (value.None? || allocOk)
      ensures field' == if ok then value else field
    {
      if value.None? {
        return true, None;
      }
      if !allocOk {
        return false, field;
      }
      ok, field' := true, value;
    }

    method SetId(value: Option<string>, allocOk: bool) returns (ok: bool)
      modifies this`id
      ensures ok == (value.None? || allocOk)
      ensures id == Overwritten(old(id), value, allocOk)
    {
      ok, id := SetString(id, value, allocOk);
    }

    method SetUserId(value: Option<string>, allocOk: bool) returns (ok: bool)
      modifies this`userId
      ensures ok == (value.None? || allocOk)
      ensures userId == Overwritten(old(userId), value, allocOk)
    {
      ok, userId := SetString(userId, value, allocOk);
    }

    method SetPublicKey(value: Option<string>, allocOk: bool) returns (ok: bool)
      modifies this`publicKey
      ensures ok == (value.None? || allocOk)
      ensures publicKey == Overwritten(old(publicKey), value, allocOk)
    {
      ok, publicKey := SetString(publicKey, value, allocOk);
    }

    method SetAlgorithm(value: Option<string>, allocOk: bool) returns (ok: bool)
      modifies this`algorithm
      ensures ok == (value.None? || allocOk)
      ensures algorithm == Overwritten(old(algorithm), value, allocOk)
    {
      ok, algorithm := SetString(algorithm, value, allocOk);
    }

    method SetChallenge(value: Option<string>, allocOk: bool) returns (ok: bool)
      modifies this`challenge
      ensures ok == (value.None? || allocOk)
      ensures challenge == Overwritten(old(challenge), value, allocOk)
    {
      ok, challenge := SetString(challenge, value, allocOk);
    }

    method SetState(s: SessionState)
      modifies this`state
      ensures state == s
    {
      state := s;
    }

    /** A zero timestamp clears the expiry. */
    method SetExpiresAt(at: int)
      modifies this`expiresAt, this`hasExpires
      ensures expiresAt == at && (hasExpires <==> at != 0)
    {
      expiresAt := at;
      hasExpires := at != 0;
    }

    method SetCreatedAt(at: int)
      modifies this`createdAt
      ensures createdAt == at
    {
      createdAt := at;
    }

    /**
     opendbsc_session_copy: frees the destination, then copies field by field and stops
     at the first string that cannot be duplicated.
     */
    method CopyFrom(src: Session, a: StringAlloc) returns (ok: bool)
      modifies this
      ensures ok == CopySucceeds(src, a)
      ensures ok ==> Value() == src
      ensures !ok ==> PartOf(Value(), src) && Value() != src
    {
      Free();
      state, expiresAt, hasExpires, createdAt := src.state, src.expiresAt, src.hasExpires, src.createdAt;
      ok := SetId(src.id, a.id);
      if !ok { return; }
      ok := SetUserId(src.userId, a.userId);
      if !ok { return; }
      ok := SetPublicKey(src.publicKey, a.publicKey);
      if !ok { return; }
      ok := SetAlgorithm(src.algorithm, a.algorithm);
      if !ok { return; }
      ok := SetChallenge(src.challenge, a.challenge);
    }
  }
}
