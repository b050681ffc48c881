/** The student table and the four request handlers that change or read it,
    as pure transitions: each takes the current store and returns its result
    together with the next store.

    The table keeps one row per student, keyed by an integer primary key,
    with a unique constraint on the email column and the five user fields
    declared not-null. Ids come from a counter the store owns; the creation
    time comes from a clock reading passed in by the caller of Register.
 */
module StudentStore {
  import opened Validator

  /** A clock reading; its value is never inspected. */
  type Timestamp = int

  /** One row of the students table. */
  datatype Student = Student(
    id: int,
    name: string,
    email: string,
    phone: string,
    course: string,
    address: string,
    createdAt: Timestamp)

  /** Why a transition refused to change the store. */
  datatype Error =
    | Invalid(message: string)  // the validator's message
    | DuplicateEmail            // register found the email already stored
    | NotFound                  // get_or_404 found no row with that id
    | EmailInUse                // the unique constraint rejected an edit

  datatype Result<T> = Ok(value: T) | Err(error: Error)

  /** The table, and the id the next inserted row will get. */
  datatype Store = Store(rows: map<int, Student>, nextId: int)

  /** What a transition returns: its result and the store after it. */
  datatype Step<T> = Step(result: Result<T>, store: Store)

  /** The table before any registration. */
  const Empty: Store := Store(map[], 1)

  /** The five user fields of a row. */
  function FieldsOf(st: Student): Form {
    Form(st.name, st.email, st.phone, st.course, st.address)
  }

  /** Every row sits under its own id, and ids are positive and below the counter. */
  predicate KeysAreIds(s: Store) {
    forall k | k in s.rows :: s.rows[k].id == k && 1 <= k < s.nextId
  }

  /** The unique constraint on the email column. */
  predicate EmailsUnique(s: Store) {
    forall k1, k2 | k1 in s.rows && k2 in s.rows && k1 != k2 :: s.rows[k1].email != s.rows[k2].email
  }

  /** The table's integrity constraints. */
  predicate Valid(s: Store) {
    1 <= s.nextId && KeysAreIds(s) && EmailsUnique(s)
  }

  /** Some row has exactly this email (case-sensitive, no normalisation). */
  predicate EmailTaken(s: Store, email: string) {
    exists k | k in s.rows :: s.rows[k].email == email
  }

  /** Some row other than `id` has exactly this email. */
  predicate EmailTakenByOther(s: Store, id: int, email: string) {
    exists k | k in s.rows :: k != id && s.rows[k].email == email
  }

  lemma EmptyIsValid()
    ensures Valid(Empty) && |Empty.rows| == 0
  {
  }

  // ---------------------------------------------------------------------
  // register
  // ---------------------------------------------------------------------

  /** Validate, refuse an email already stored, else insert one new row
      with a fresh id and the clock reading as its creation time. */
  function Register(s: Store, f: Form, now: Timestamp): (r: Step<Student>)
    requires Valid(s)
    ensures Valid(r.store)
    ensures !Validate(f).0 ==> r == Step(Err(Invalid(Validate(f).1)), s)
    ensures Validate(f).0 && EmailTaken(s, f.email) ==> r == Step(Err(DuplicateEmail), s)
    ensures r.result.Ok? <==> Validate(f).0 && !EmailTaken(s, f.email)
    ensures r.result.Ok? ==>
      var st := r.result.value;
      && st.id !in s.rows
      && FieldsOf(st) == f
      && st.createdAt == now
      && r.store.rows == s.rows[st.id := st]
      && |r.store.rows| == |s.rows| + 1
  {
    var (ok, message) := Validate(f);
    if !ok then Step(Err(Invalid(message)), s)
    else if EmailTaken(s, f.email) then Step(Err(DuplicateEmail), s)
    else
      var st := Student(s.nextId, f.name, f.email, f.phone, f.course, f.address, now);
      Step(Ok(st), Store(s.rows[s.nextId := st], s.nextId + 1))
  }

  // ---------------------------------------------------------------------
  // get_or_404 and view
  // ---------------------------------------------------------------------

  /** Look a row up by its primary key. */
  function Get(s: Store, id: int): (r: Result<Student>)
    requires Valid(s)
    ensures r.Ok? <==> id in s.rows
    ensures r.Ok? ==> r.value.id == id && r.value in s.rows.Values
    ensures r.Err? ==> r.error == NotFound
  {
    if id in s.rows then Ok(s.rows[id]) else Err(NotFound)
  }

  /** The rows with ids from i upward, in ascending id order. */
  function ListFrom(s: Store, i: int): (r: seq<Student>)
    requires Valid(s)
    decreases s.nextId - i
    ensures forall n | 0 <= n < |r| :: r[n].id >= i && r[n].id in s.rows && s.rows[r[n].id] == r[n]
    ensures forall k | k in s.rows && k >= i :: s.rows[k] in r
    ensures forall n, m | 0 <= n < m < |r| :: r[n].id < r[m].id
  {
    if i >= s.nextId then []
    else if i in s.rows then [s.rows[i]] + ListFrom(s, i + 1)
    else ListFrom(s, i + 1)
  }

  /** Every row, once each, in ascending id order. */
  function ListAll(s: Store): (r: seq<Student>)
    requires Valid(s)
    ensures forall n | 0 <= n < |r| :: r[n].id in s.rows && s.rows[r[n].id] == r[n]
    ensures forall k | k in s.rows :: s.rows[k] in r
    ensures forall n, m | 0 <= n < m < |r| :: r[n].id < r[m].id
  {
    ListFrom(s, 1)
  }

  /** The ids of the rows from i upward. */
  function IdsFrom(s: Store, i: int): set<int> {
    set k | k in s.rows && k >= i
  }

  lemma {:induction false} ListFromLength(s: Store, i: int)
    requires Valid(s)
    decreases s.nextId - i
    ensures |ListFrom(s, i)| == |IdsFrom(s, i)|
  {
    if i >= s.nextId {
      IdsFromPastCounter(s, i);
    } else {
      ListFromLength(s, i + 1);
      if i in s.rows {
        assert |ListFrom(s, i)| == 1 + |ListFrom(s, i + 1)|;
        IdsFromStep(s, i);
      } else {
        assert ListFrom(s, i) == ListFrom(s, i + 1);
        assert IdsFrom(s, i) == IdsFrom(s, i + 1);
      }
    }
  }

  lemma IdsFromPastCounter(s: Store, i: int)
    requires Valid(s) && i >= s.nextId
    ensures IdsFrom(s, i) == {}
  {
  }

  lemma IdsFromStep(s: Store, i: int)
    requires i in s.rows
    ensures |IdsFrom(s, i)| == 1 + |IdsFrom(s, i + 1)|
  {
    var rest := IdsFrom(s, i + 1);
    assert IdsFrom(s, i) == rest + {i};
    assert i !in rest;
  }

  /** The listing has exactly as many entries as the table has rows. */
  lemma ListAllLength(s: Store)
    requires Valid(s)
    ensures |ListAll(s)| == |s.rows|
  {
    ListFromLength(s, 1);
    assert IdsFrom(s, 1) == s.rows.Keys;
  }

  // ---------------------------------------------------------------------
  // edit
  // ---------------------------------------------------------------------

  /** Overwrite the five user fields of row `id`. The form is not
      validated; only the unique constraint on email can refuse it. */
  function Edit(s: Store, id: int, f: Form): (r: Step<Student>)
    requires Valid(s)
    ensures Valid(r.store)
    ensures id !in s.rows ==> r == Step(Err(NotFound), s)
    ensures id in s.rows && EmailTakenByOther(s, id, f.email) ==> r == Step(Err(EmailInUse), s)
    ensures r.result.Ok? <==> id in s.rows && !EmailTakenByOther(s, id, f.email)
    ensures r.result.Ok? ==>
      && r.store.nextId == s.nextId
      && r.store.rows.Keys == s.rows.Keys
      && r.result.value == r.store.rows[id]
      && FieldsOf(r.store.rows[id]) == f
      && r.store.rows[id].id == id
      && r.store.rows[id].createdAt == s.rows[id].createdAt
      && (forall k | k in s.rows && k != id :: r.store.rows[k] == s.rows[k])
  {
    if id !in s.rows then Step(Err(NotFound), s)
    else if EmailTakenByOther(s, id, f.email) then Step(Err(EmailInUse), s)
    else
      var st := s.rows[id].(name := f.name, email := f.email, phone := f.phone,
                            course := f.course, address := f.address);
      Step(Ok(st), s.(rows := s.rows[id := st]))
  }

  // ---------------------------------------------------------------------
  // delete
  // ---------------------------------------------------------------------

  /** Remove row `id` for good. */
  function Delete(s: Store, id: int): (r: Step<()>)
    requires Valid(s)
    ensures Valid(r.store)
    ensures id !in s.rows ==> r == Step(Err(NotFound), s)
    ensures r.result.Ok? <==> id in s.rows
    ensures r.result.Ok? ==>
      && r.store.nextId == s.nextId
      && r.store.rows.Keys == s.rows.Keys - {id}
      && |r.store.rows| == |s.rows| - 1
      && (forall k | k in r.store.rows :: r.store.rows[k] == s.rows[k])
  {
    if id !in s.rows then Step(Err(NotFound), s)
    else Step(Ok(()), s.(rows := s.rows - {id}))
  }

  // ---------------------------------------------------------------------
  // Properties across transitions
  // ---------------------------------------------------------------------

  /** A row that register created is found again by its id, carrying the
      five submitted fields. */
  lemma RegisterThenGet(s: Store, f: Form, now: Timestamp)
    requires Valid(s)
    requires Register(s, f, now).result.Ok?
    ensures
      var r := Register(s, f, now);
      && Get(r.store, r.result.value.id).Ok?
      && FieldsOf(Get(r.store, r.result.value.id).value) == f
  {
  }

  /** Registering the same form twice: the second attempt is refused as a
      duplicate and leaves the store as the first one left it. */
  lemma RegisterTwiceIsDuplicate(s: Store, f: Form, now: Timestamp, later: Timestamp)
    requires Valid(s)
    requires Register(s, f, now).result.Ok?
    ensures
      var s1 := Register(s, f, now).store;
      Register(s1, f, later) == Step(Err(DuplicateEmail), s1)
  {
    var r := Register(s, f, now);
    assert r.store.rows[r.result.value.id].email == f.email;
  }

  /** After a successful delete the id is no longer found, and every other
      id is found exactly as before. */
  lemma DeleteThenGet(s: Store, id: int, other: int)
    requires Valid(s)
    requires Delete(s, id).result.Ok?
    ensures Get(Delete(s, id).store, id) == Err(NotFound)
    ensures other != id ==> Get(Delete(s, id).store, other) == Get(s, other)
  {
  }

  /** After a successful edit the row reads back with the new fields and
      its original id and creation time; other rows read as before. */
  lemma EditThenGet(s: Store, id: int, f: Form, other: int)
    requires Valid(s)
    requires Edit(s, id, f).result.Ok?
    ensures
      var s1 := Edit(s, id, f).store;
      && Get(s1, id).Ok?
      && FieldsOf(Get(s1, id).value) == f
      && Get(s1, id).value.createdAt == Get(s, id).value.createdAt
      && (other != id ==> Get(s1, other) == Get(s, other))
  {
  }
}
