/**
 * The `User` entity: a stored account with an optional generated id, an email that is
 * its natural key, a password hash and a role. Equality and hashing look at the email
 * only.
 */
module Entity {

  import opened Http

  datatype Role = ADMIN | USER

  /** A generated identifier; only equality matters to the model. */
  type Uuid = nat

  /** `id` is None until the store generates it on save. */
  datatype User = User(id: Option<Uuid>, email: string, password: string, role: Role)

  /**
   * A reference on the heap, as seen by `equals(other: Any?)`: null, a User object or
   * an object of some other class. `addr` stands for the object's identity.
   */
  datatype Ref = Null | UserRef(addr: nat, user: User) | OtherRef(addr: nat)

  /** The same address always denotes the same object. */
  predicate SameObjectSameValue(a: Ref, b: Ref)
  {
    a.UserRef? && b.UserRef? && a.addr == b.addr ==> a.user == b.user
  }

  /**
   * `this.equals(other)`, where `this` is the User `me` stored at address `self`: identical
   * references are equal, non-User values are not, otherwise compare emails.
   */
  function Equals(self: nat, me: User, other: Ref): (r: bool)
    ensures r ==> other.UserRef?
    ensures other == UserRef(self, me) ==> r
    ensures other.UserRef? && other.user.email == me.email ==> r
  {
    if other.UserRef? && other.addr == self then true
    else if !other.UserRef? then false
    else me.email == other.user.email
  }

  /** Kotlin `Int`: a signed 32-bit integer. */
  newtype Int32 = x: int | -0x8000_0000 <= x < 0x8000_0000

  /** Two's-complement wrap-around of an arbitrary integer into 32 bits. */
  function Wrap(x: int): (r: Int32)
    ensures (x - r as int) % 0x1_0000_0000 == 0
  {
    var m := x % 0x1_0000_0000;
    if m < 0x8000_0000 then m as Int32 else (m - 0x1_0000_0000) as Int32
  }

  /**
   * `String.hashCode`: h = 31 * h + c over the characters, left to right, with 32-bit
   * wrap-around at every step.
   */
  function StringHash(s: string): (r: Int32)
    ensures s == [] ==> r == 0
    ensures |s| == 1 ==> r as int == s[0] as int
  {
    if s == [] then 0 else Wrap(31 * StringHash(s[..|s| - 1]) as int + s[|s| - 1] as int)
  }

  /** `hashCode()` is the email's hash. */
  function HashCode(u: User): (r: Int32)
    ensures u.email == [] ==> r == 0
    ensures |u.email| == 1 ==> r as int == u.email[0] as int
  {
    StringHash(u.email)
  }

  /** A User reference is always equal to itself. */
  lemma EqualsReflexive(self: nat, u: User)
    ensures Equals(self, u, UserRef(self, u))
  {
  }

  /** A User is never equal to null nor to an object of another class. */
  lemma NeverEqualsNonUser(self: nat, u: User, other: Ref)
    requires !other.UserRef?
    ensures !Equals(self, u, other)
  {
  }

  /**
   * On a consistent heap, two User references are equal exactly when their emails are,
   * whatever their ids, passwords and roles.
   */
  lemma EqualsIffSameEmail(self: nat, u: User, other: Ref)
    requires other.UserRef?
    requires SameObjectSameValue(UserRef(self, u), other)
    ensures Equals(self, u, other) <==> u.email == other.user.email
  {
  }

  /** Equality is symmetric and transitive on a consistent heap, as `equals` must be. */
  lemma EqualsIsEquivalence(a: Ref, b: Ref, c: Ref)
    requires a.UserRef? && b.UserRef? && c.UserRef?
    requires SameObjectSameValue(a, b) && SameObjectSameValue(b, c) && SameObjectSameValue(a, c)
    ensures Equals(a.addr, a.user, b) <==> Equals(b.addr, b.user, a)
    ensures Equals(a.addr, a.user, b) && Equals(b.addr, b.user, c) ==> Equals(a.addr, a.user, c)
  {
  }

  /** Equal users have equal hash codes, as the `equals`/`hashCode` contract demands. */
  lemma HashConsistentWithEquals(self: nat, u: User, other: Ref)
    requires other.UserRef? && SameObjectSameValue(UserRef(self, u), other)
    requires Equals(self, u, other)
    ensures HashCode(u) == HashCode(other.user)
  {
  }

  /** The hash of a string extended by one character, as Java defines it. */
  lemma {:induction false} StringHashAppend(s: string, c: char)
    ensures StringHash(s + [c]) == Wrap(31 * StringHash(s) as int + c as int)
  {
    assert (s + [c])[..|s + [c]| - 1] == s;
  }
}
