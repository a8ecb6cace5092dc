/**
 * The fixed lifecycle tag of a status (app/Enums/StatusType.php). Every rule
 * of the workflow switches on this tag; the status name is only a label.
 */
module StatusTypes {
  import opened Wrappers

  datatype StatusType = Inbox | Active | Done | Cancelled {

    /** The backing value stored in the `type` column. */
    function Value(): string {
      match this
      case Inbox => "inbox"
      case Active => "active"
      case Done => "done"
      case Cancelled => "cancelled"
    }

    /** `label()`: the name shown to the user. */
    function Label(): string {
      match this
      case Inbox => "Inbox"
      case Active => "Active"
      case Done => "Done"
      case Cancelled => "Cancelled"
    }

    /** Inbox and Active are the open kinds; Done and Cancelled are terminal. */
    predicate IsOpen() {
      this == Inbox || this == Active
    }
  }

  /** The cases in declaration order. */
  const AllTypes: seq<StatusType> := [Inbox, Active, Done, Cancelled]

  /** `StatusType::tryFrom`: the case whose backing value is `value`, if any. */
  function TryFrom(value: string): (r: Option<StatusType>)
    ensures r.Some? ==> r.value.Value() == value
    ensures r.None? ==> forall t: StatusType :: t.Value() != value
  {
    if value == "inbox" then Some(Inbox)
    else if value == "active" then Some(Active)
    else if value == "done" then Some(Done)
    else if value == "cancelled" then Some(Cancelled)
    else None
  }

  /** There are exactly four cases, listed once each in AllTypes. */
  lemma ExactlyFourCases()
    ensures |AllTypes| == 4
    ensures forall t: StatusType :: t in AllTypes
    ensures forall i, j :: 0 <= i < j < |AllTypes| ==> AllTypes[i] != AllTypes[j]
  {
    forall t: StatusType ensures t in AllTypes {
      match t
      case Inbox => assert AllTypes[0] == t;
      case Active => assert AllTypes[1] == t;
      case Done => assert AllTypes[2] == t;
      case Cancelled => assert AllTypes[3] == t;
    }
  }

  /** Decoding the stored value gives the case back. */
  lemma ValueRoundTrip(t: StatusType)
    ensures TryFrom(t.Value()) == Some(t)
  {
  }

  /** Distinct cases are stored as distinct strings. */
  lemma ValuesDistinct(a: StatusType, b: StatusType)
    ensures a.Value() == b.Value() ==> a == b
  {
    if a != b {
      assert a.Value()[0] != b.Value()[0] || |a.Value()| != |b.Value()|;
    }
  }

  /** Distinct cases are shown with distinct labels. */
  lemma LabelInjective(a: StatusType, b: StatusType)
    ensures a.Label() == b.Label() ==> a == b
  {
    if a != b {
      assert a.Label()[0] != b.Label()[0] || |a.Label()| != |b.Label()|;
    }
  }
}
