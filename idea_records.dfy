/**
 * The shape of one row of the `ideas` table, as the backend stores it and
 * as the frontend receives it in JSON.
 */
module IdeaRecords {

  import opened Wrappers

  /** A column value: SQL NULL / JSON null, or a string. */
  datatype Value = Null | Str(s: string)

  /** mysql2 sends an `undefined` query parameter as SQL NULL. */
  function SqlParam(v: Option<Value>): (r: Value)
    ensures v.Some? ==> r == v.value
    ensures v.None? ==> r == Null
  {
    v.GetOr(Null)
  }

  /** The seven columns the full update may write. */
  datatype Field = Epic | Story | Criteria | Priority | StoryPoints | Moscow | State

  /** The position of a field in the full-update handler's list of checks. */
  function FieldIndex(f: Field): nat
  {
    match f
    case Epic => 0
    case Story => 1
    case Criteria => 2
    case Priority => 3
    case StoryPoints => 4
    case Moscow => 5
    case State => 6
  }

  /** The column keys of the sortable table headers. */
  datatype SortKey = UsNumberKey | FieldKey(field: Field)

  /**
   * One idea. `id` is the auto-increment key; `upvotes` and `downvotes`
   * are only filled by column defaults in this code.
   */
  datatype Idea = Idea(
    id: int,
    usNumber: Value,
    epic: Value,
    story: Value,
    criteria: Value,
    priority: Value,
    storyPoints: Value,
    moscow: Value,
    state: Value,
    upvotes: int,
    downvotes: int)
  {
    function Get(f: Field): Value
    {
      match f
      case Epic => epic
      case Story => story
      case Criteria => criteria
      case Priority => priority
      case StoryPoints => storyPoints
      case Moscow => moscow
      case State => state
    }

    /** The row with column `f` set to `v`, as `UPDATE ideas SET f = v` leaves it. */
    function With(f: Field, v: Value): (r: Idea)
      ensures r.Get(f) == v
      ensures forall g :: g != f ==> r.Get(g) == Get(g)
      ensures r.id == id && r.usNumber == usNumber
      ensures r.upvotes == upvotes && r.downvotes == downvotes
    {
      match f
      case Epic => this.(epic := v)
      case Story => this.(story := v)
      case Criteria => this.(criteria := v)
      case Priority => this.(priority := v)
      case StoryPoints => this.(storyPoints := v)
      case Moscow => this.(moscow := v)
      case State => this.(state := v)
    }

    function KeyValue(k: SortKey): Value
    {
      match k
      case UsNumberKey => usNumber
      case FieldKey(f) => Get(f)
    }
  }

  /** Two rows that agree on every column are the same row. */
  lemma RowExtensionality(a: Idea, b: Idea)
    requires a.id == b.id && a.usNumber == b.usNumber
    requires a.upvotes == b.upvotes && a.downvotes == b.downvotes
    requires forall f :: a.Get(f) == b.Get(f)
    ensures a == b
  {
    assert a.Get(Epic) == b.Get(Epic) && a.Get(Story) == b.Get(Story);
    assert a.Get(Criteria) == b.Get(Criteria) && a.Get(Priority) == b.Get(Priority);
    assert a.Get(StoryPoints) == b.Get(StoryPoints) && a.Get(Moscow) == b.Get(Moscow);
    assert a.Get(State) == b.Get(State);
  }
}
