/** The Habit document of backend/models/Habit.js: its fields, the casting and
    validation the schema applies when a habit is created, the defaults of a new
    habit and of a completion entry, and the unique (name, user) index. */
module HabitSchema {
  import opened Results

  type UserId = int
  type HabitId = int

  const NameMaxLength: nat := 50
  const DescriptionMaxLength: nat := 200
  const CategoryMaxLength: nat := 30

  datatype Frequency = Daily | Weekly

  /** One entry of `completions`: an instant in milliseconds and the completed flag. */
  datatype Completion = Completion(date: int, completed: bool)

  /** A completion entry as the schema builds it: an absent `date` takes the
      creation instant and an absent `completed` takes false. */
  function NewCompletion(date: Option<int>, completed: Option<bool>, now: int): (c: Completion)
    ensures c.completed <==> completed == Some(true)
    ensures date.None? ==> c.date == now
    ensures date.Some? ==> c.date == date.value
  {
    Completion(
      match date case Some(d) => d case None => now,
      match completed case Some(b) => b case None => false)
  }

  /** The characters JavaScript's `String.prototype.trim` removes: white space and
      line terminators. */
  predicate IsJsSpace(c: char) {
    var n := c as int;
    (0x09 <= n <= 0x0D) || n == 0x20 || n == 0xA0 || n == 0x1680 ||
    (0x2000 <= n <= 0x200A) || n == 0x2028 || n == 0x2029 || n == 0x202F ||
    n == 0x205F || n == 0x3000 || n == 0xFEFF
  }

  function TrimStart(s: string): (r: string)
    ensures |r| <= |s| && r == s[|s| - |r|..]
    ensures forall k :: 0 <= k < |s| - |r| ==> IsJsSpace(s[k])
    ensures r == [] || !IsJsSpace(r[0])
  {
    if s != [] && IsJsSpace(s[0]) then TrimStart(s[1..]) else s
  }

  function TrimEnd(s: string): (r: string)
    ensures |r| <= |s| && r == s[..|r|]
    ensures forall k :: |r| <= k < |s| ==> IsJsSpace(s[k])
    ensures r == [] || !IsJsSpace(r[|r| - 1])
  {
    if s != [] && IsJsSpace(s[|s| - 1]) then TrimEnd(s[..|s| - 1]) else s
  }

  /** The schema's `trim: true` setter. */
  function Trim(s: string): (r: string)
    ensures |r| <= |s|
    ensures r == [] || (!IsJsSpace(r[0]) && !IsJsSpace(r[|r| - 1]))
  {
    TrimEnd(TrimStart(s))
  }

  predicate IsTrimmed(s: string) {
    s == [] || (!IsJsSpace(s[0]) && !IsJsSpace(s[|s| - 1]))
  }

  /** Trimming an already trimmed string changes nothing, so the setter is idempotent. */
  lemma TrimIdempotent(s: string)
    ensures Trim(Trim(s)) == Trim(s)
  {
    var t := Trim(s);
    assert TrimStart(t) == t;
    assert TrimEnd(t) == t;
  }

  /** The fields a client supplies when creating a habit; `None` is a missing field. */
  datatype HabitInput = HabitInput(
    name: Option<string>,
    description: Option<string>,
    frequency: Option<string>,
    category: Option<string>)

  /** The user-editable fields of a habit after casting. */
  datatype HabitFields = HabitFields(
    name: string,
    description: Option<string>,
    frequency: Frequency,
    category: Option<string>)

  /** The paths a validation error names. */
  datatype Path = NamePath | DescriptionPath | FrequencyPath | CategoryPath

  predicate OptionalWithin(s: Option<string>, max: nat) {
    s.None? || (IsTrimmed(s.value) && |s.value| <= max)
  }

  /** The schema's constraints on the fields of a stored habit. */
  predicate FieldsValid(f: HabitFields) {
    IsTrimmed(f.name) && 0 < |f.name| <= NameMaxLength &&
    OptionalWithin(f.description, DescriptionMaxLength) &&
    OptionalWithin(f.category, CategoryMaxLength)
  }

  function TrimOption(s: Option<string>): Option<string> {
    match s case Some(v) => Some(Trim(v)) case None => None
  }

  /** The enum validator with its default: absent is daily, and only "daily" and
      "weekly" are accepted. */
  function CastFrequency(s: Option<string>): (r: Option<Frequency>)
    ensures r == Some(Weekly) <==> s == Some("weekly")
    ensures r == Some(Daily) <==> s.None? || s == Some("daily")
  {
    assert "daily"[0] != "weekly"[0];
    match s
    case None => Some(Daily)
    case Some(v) => if v == "daily" then Some(Daily) else if v == "weekly" then Some(Weekly) else None
  }

  predicate NameValid(name: Option<string>) {
    var t := TrimOption(name);
    t.Some? && 0 < |t.value| <= NameMaxLength
  }

  predicate OptionalTextValid(s: Option<string>, max: nat) {
    var t := TrimOption(s);
    t.None? || |t.value| <= max
  }

  /** Whether the value given for `path` passes its validator once the setters
      have run: a name of 1 to 50 characters, texts within their maximum length, and
      a frequency that is absent, "daily" or "weekly". */
  predicate PathValid(input: HabitInput, path: Path) {
    match path
    case NamePath => NameValid(input.name)
    case DescriptionPath => OptionalTextValid(input.description, DescriptionMaxLength)
    case FrequencyPath => CastFrequency(input.frequency).Some?
    case CategoryPath => OptionalTextValid(input.category, CategoryMaxLength)
  }

  /** Every path whose value fails its validator, as Mongoose reports them together
      in one validation error. */
  function FailingPaths(input: HabitInput): set<Path> {
    set path: Path | path in {NamePath, DescriptionPath, FrequencyPath, CategoryPath} && !PathValid(input, path)
  }

  lemma TrimmedWithin(s: Option<string>, max: nat)
    requires OptionalTextValid(s, max)
    ensures OptionalWithin(TrimOption(s), max)
  {
  }

  /** Casts and validates the fields of a new habit: names and texts are trimmed,
      a missing frequency becomes daily, and any failing path rejects the document. */
  function CastHabit(input: HabitInput): (r: Result<HabitFields, set<Path>>)
    ensures r.Ok? <==> forall path :: PathValid(input, path)
    ensures r.Err? ==> r.error == FailingPaths(input) && r.error != {}
    ensures r.Ok? ==> FieldsValid(r.value)
    ensures r.Ok? ==> input.name.Some? && r.value.name == Trim(input.name.value)
    ensures r.Ok? ==> r.value.description == TrimOption(input.description)
    ensures r.Ok? ==> r.value.category == TrimOption(input.category)
    ensures r.Ok? ==> (r.value.frequency == Weekly <==> input.frequency == Some("weekly"))
  {
    if !PathValid(input, NamePath) || !PathValid(input, DescriptionPath) ||
       !PathValid(input, FrequencyPath) || !PathValid(input, CategoryPath)
    then
      var bad := if !PathValid(input, NamePath) then NamePath
        else if !PathValid(input, DescriptionPath) then DescriptionPath
        else if !PathValid(input, FrequencyPath) then FrequencyPath
        else CategoryPath;
      assert bad in FailingPaths(input);
      Err(FailingPaths(input))
    else
      assert forall path :: PathValid(input, path);
      TrimmedWithin(input.description, DescriptionMaxLength);
      TrimmedWithin(input.category, CategoryMaxLength);
      Ok(HabitFields(Trim(input.name.value), TrimOption(input.description),
                     CastFrequency(input.frequency).value, TrimOption(input.category)))
  }

  /** A stored habit document. The route handlers update its completions and
      streak in place. */
  class Habit {
    const id: HabitId
    const user: UserId
    var name: string
    var description: Option<string>
    var frequency: Frequency
    var category: Option<string>
    var completions: seq<Completion>
    var streak: nat

    ghost predicate Valid()
      reads this
    {
      FieldsValid(Fields())
    }

    function Fields(): HabitFields
      reads this
    {
      HabitFields(name, description, frequency, category)
    }

    /** A new habit: the cast fields, no completions and a streak of 0. */
    constructor (id: HabitId, user: UserId, fields: HabitFields)
      requires FieldsValid(fields)
      ensures Valid() && Fields() == fields
      ensures this.id == id && this.user == user
      ensures completions == [] && streak == 0
    {
      this.id := id;
      this.user := user;
      name := fields.name;
      description := fields.description;
      frequency := fields.frequency;
      category := fields.category;
      completions := [];
      streak := 0;
    }
  }

  /** The key of the unique index on (name, user). */
  datatype HabitKey = HabitKey(name: string, user: UserId)

  predicate KeysDistinct(keys: seq<HabitKey>) {
    forall i, j :: 0 <= i < j < |keys| ==> keys[i] != keys[j]
  }

  /** Inserting a document into the unique index: a key already present is a
      duplicate-key error and leaves the index as it was. */
  function IndexInsert(keys: seq<HabitKey>, k: HabitKey): (r: Result<seq<HabitKey>, HabitKey>)
    ensures r.Ok? <==> k !in keys
    ensures r.Err? ==> r.error == k
    ensures r.Ok? ==> r.value == keys + [k]
    ensures r.Ok? && KeysDistinct(keys) ==> KeysDistinct(r.value)
  {
    if k in keys then Err(k) else Ok(keys + [k])
  }

  /** In a distinct index no two habits of one user share a name. */
  lemma DistinctKeysHaveDistinctNames(keys: seq<HabitKey>, i: nat, j: nat)
    requires KeysDistinct(keys) && i < |keys| && j < |keys| && i != j
    requires keys[i].user == keys[j].user
    ensures keys[i].name != keys[j].name
  {
    if i > j {
      assert keys[j] != keys[i];
    }
  }
}
