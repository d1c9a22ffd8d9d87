/** The three transaction kinds and how a kind string is recognised. */
module TransactionTypes {
  import opened Results

  datatype TransactionType = BookPassenger | ChangePrice | CancelPassenger

  /** The string each kind stands for in a transaction record. */
  function Name(t: TransactionType): string
  {
    match t
    case BookPassenger => "BookPassenger"
    case ChangePrice => "ChangePrice"
    case CancelPassenger => "CancelPassenger"
  }

  /**
   * The dispatch chain: the kind string is compared with the three names in
   * turn; a string that matches none of them is not a transaction kind.
   */
  function Classify(kind: string): (r: Option<TransactionType>)
    ensures r.Some? ==> Name(r.value) == kind
    ensures r.None? ==> forall t :: Name(t) != kind
  {
    if kind == Name(BookPassenger) then Some(BookPassenger)
    else if kind == Name(ChangePrice) then Some(ChangePrice)
    else if kind == Name(CancelPassenger) then Some(CancelPassenger)
    else None
  }

  /** The names are pairwise distinct, so every name selects its own kind and at most one branch fires. */
  lemma ClassifyName(t: TransactionType)
    ensures Classify(Name(t)) == Some(t)
    ensures forall u :: Name(u) == Name(t) ==> u == t
  {
  }
}
