/** Positions in the displayed student list. */
module Indexes {
  import opened Wrappers

  /** A list position, kept zero-based; users see it one-based. */
  datatype Index = Index(zeroBased: nat) {
    function OneBased(): nat {
      zeroBased + 1
    }
  }

  /** `Index.fromOneBased`: there is no index below one. */
  function FromOneBased(oneBased: int): (r: Option<Index>)
    ensures r.Some? <==> oneBased >= 1
    ensures r.Some? ==> r.value.OneBased() == oneBased
  {
    if oneBased >= 1 then Some(Index(oneBased - 1)) else None
  }
}
