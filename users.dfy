/** The rows of the `user_data` table and the coercion every stream applies
    to them.  The table stores `age` as DECIMAL(3,0); Python's `int()` turns
    that decimal into an integer by truncating toward zero. */
module Users {

  /** A row as the database hands it over: `age` is still a decimal. */
  datatype StoredRow = StoredRow(userId: string, name: string, email: string, age: real)

  /** A row after its `age` has been coerced to an integer. */
  datatype User = User(userId: string, name: string, email: string, age: int)

  /** Python's `int()` applied to a decimal: truncation toward zero. */
  function AgeToInt(d: real): (n: int)
    ensures d >= 0.0 ==> 0 <= n && n as real <= d < n as real + 1.0
    ensures d < 0.0 ==> n <= 0 && n as real - 1.0 < d <= n as real
    ensures d == d.Floor as real ==> n as real == d
  {
    if d >= 0.0 then d.Floor
    else
      var m := (-d).Floor;
      assert m as real <= -d < m as real + 1.0;
      assert d == d.Floor as real ==> -d == (-d.Floor) as real;
      -m
  }

  /** `row['age'] = int(row['age'])`: the age becomes an integer and the
      other three columns are carried over untouched. */
  function Coerce(r: StoredRow): (u: User)
    ensures u.userId == r.userId && u.name == r.name && u.email == r.email
    ensures u.age == AgeToInt(r.age)
  {
    User(r.userId, r.name, r.email, AgeToInt(r.age))
  }

  /** The coerced table, row by row and in order. */
  function CoerceAll(rows: seq<StoredRow>): seq<User>
  {
    seq(|rows|, i requires 0 <= i < |rows| => Coerce(rows[i]))
  }

  /** Concatenation of a sequence of batches or pages, in order. */
  function Flatten<T>(bs: seq<seq<T>>): seq<T>
  {
    if bs == [] then [] else bs[0] + Flatten(bs[1..])
  }

  lemma {:induction false} FlattenAppend<T>(a: seq<seq<T>>, b: seq<seq<T>>)
    ensures Flatten(a + b) == Flatten(a) + Flatten(b)
  {
    if a != [] {
      assert (a + b)[1..] == a[1..] + b;
      FlattenAppend(a[1..], b);
    } else {
      assert a + b == b;
    }
  }

  /** The concatenation of the first `k + 1` batches is that of the first
      `k` followed by batch `k`. */
  lemma FlattenPrefixStep<T>(bs: seq<seq<T>>, k: nat)
    requires k < |bs|
    ensures Flatten(bs[..k + 1]) == Flatten(bs[..k]) + bs[k]
  {
    assert bs[..k + 1] == bs[..k] + [bs[k]];
    FlattenAppend(bs[..k], [bs[k]]);
    assert Flatten([bs[k]]) == bs[k] + Flatten([bs[k]][1..]);
    assert [bs[k]][1..] == [];
  }
}
