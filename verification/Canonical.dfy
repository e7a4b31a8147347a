/** A statement put in the specified order: `Statement.sorted`, and what the decoder makes of it. */
module Canonical {
  import opened Results
  import opened Statement
  import Decoder
  import Sorting
  import Lex

  const BindingKey: Binding -> seq<int> := (b: Binding) => b.Encode()
  const RevocationKey: Revocation -> seq<int> := (r: Revocation) => r.Encode()

  function Sorted(st: Statement): (r: Statement) {
    st.(active := Sorting.Sort(BindingKey, st.active), revoked := Sorting.Sort(RevocationKey, st.revoked))
  }

  lemma SameFields(st: Statement)
    ensures var r := Sorted(st);
            && multiset(r.active) == multiset(st.active) && multiset(r.revoked) == multiset(st.revoked)
            && (FieldsOk(r) <==> FieldsOk(st))
  {
    var r := Sorted(st);
    Sorting.SortSorts(BindingKey, st.active);
    Sorting.SortSorts(RevocationKey, st.revoked);
    Sorting.SameItems(BindingKey, st.active);
    Sorting.SameItems(RevocationKey, st.revoked);
    if FieldsOk(r) {
      SameItemsSameFields(r, st);
    }
    if FieldsOk(st) {
      SameItemsSameFields(st, r);
    }
  }

  lemma SameItemsSameFields(r: Statement, st: Statement)
    requires r.issuer == st.issuer && r.account == st.account && r.generation == st.generation && r.floor == st.floor
    requires |r.active| == |st.active| && |r.revoked| == |st.revoked|
    requires forall b :: b in r.active <==> b in st.active
    requires forall x :: x in r.revoked <==> x in st.revoked
    requires FieldsOk(r)
    ensures FieldsOk(st)
  {
  }

  lemma KeysAreInjective(st: Statement)
    requires FieldsOk(st)
    ensures Sorting.DistinctKeys(BindingKey, st.active) <==> Sorting.Distinct(st.active)
    ensures Sorting.DistinctKeys(RevocationKey, st.revoked) <==> Sorting.Distinct(st.revoked)
  {
    forall i, j | 0 <= i < j < |st.active|
      ensures BindingKey(st.active[i]) == BindingKey(st.active[j]) <==> st.active[i] == st.active[j]
    {
      BindingOrder(st.active[i], st.active[j]);
    }
    forall i, j | 0 <= i < j < |st.revoked|
      ensures RevocationKey(st.revoked[i]) == RevocationKey(st.revoked[j]) <==> st.revoked[i] == st.revoked[j]
    {
      RevocationOrder(st.revoked[i], st.revoked[j]);
    }
  }

  lemma OrderedIsStrict(st: Statement)
    requires FieldsOk(st)
    ensures Ordered(st) <==> Sorting.StrictlyAscending(BindingKey, st.active)
                             && Sorting.StrictlyAscending(RevocationKey, st.revoked)
  {
    forall i | 0 < i < |st.active|
      ensures Lex.Less(BindingKey(st.active[i - 1]), BindingKey(st.active[i]))
              <==> BindingLess(st.active[i - 1], st.active[i])
    {
      BindingOrder(st.active[i - 1], st.active[i]);
    }
    forall i | 0 < i < |st.revoked|
      ensures Lex.Less(RevocationKey(st.revoked[i - 1]), RevocationKey(st.revoked[i]))
              <==> RevocationLess(st.revoked[i - 1], st.revoked[i])
    {
      RevocationOrder(st.revoked[i - 1], st.revoked[i]);
    }
    if Ordered(st) {
      forall i, j | 0 <= i < j < |st.active|
        ensures Lex.Less(BindingKey(st.active[i]), BindingKey(st.active[j]))
      {
        Sorting.AdjacentIsStrict(BindingKey, st.active, i, j);
      }
      forall i, j | 0 <= i < j < |st.revoked|
        ensures Lex.Less(RevocationKey(st.revoked[i]), RevocationKey(st.revoked[j]))
      {
        Sorting.AdjacentIsStrict(RevocationKey, st.revoked, i, j);
      }
    }
  }

  /** Sorting makes a statement valid exactly when the other rules hold and no entry is repeated. */
  lemma SortedIsValid(st: Statement)
    ensures Valid(Sorted(st)) <==> FieldsOk(st) && Sorting.Distinct(st.active) && Sorting.Distinct(st.revoked)
  {
    var r := Sorted(st);
    SameFields(st);
    if FieldsOk(st) {
      Sorting.SortSorts(BindingKey, st.active);
      Sorting.SortSorts(RevocationKey, st.revoked);
      Sorting.AscendingStrict(BindingKey, r.active);
      Sorting.AscendingStrict(RevocationKey, r.revoked);
      KeysAreInjective(r);
      OrderedIsStrict(r);
      Sorting.DistinctPermuted(r.active, st.active);
      Sorting.DistinctPermuted(r.revoked, st.revoked);
    }
  }

  /** The decoder reads the sorted statement back, holding the same entries, exactly in those cases. */
  lemma SortedIsAccepted(st: Statement)
    requires |st.account| < 0x1_0000_0000 && |st.active| < 0x1_0000_0000 && |st.revoked| < 0x1_0000_0000
    ensures Decoder.Decoded(Sorted(st).Encode()) == Ok(Sorted(st)) <==>
            FieldsOk(st) && Sorting.Distinct(st.active) && Sorting.Distinct(st.revoked)
    ensures multiset(Sorted(st).active) == multiset(st.active) && multiset(Sorted(st).revoked) == multiset(st.revoked)
  {
    SameFields(st);
    SortedIsValid(st);
    var data := Sorted(st).Encode();
    Decoder.DecodesExactlyEncodings(data, Sorted(st));
    Decoder.ReencodingNeverDiffers(data);
  }

  /** A valid statement is already in order: sorting changes nothing. */
  lemma SortedFixesValid(st: Statement)
    requires Valid(st)
    ensures Sorted(st) == st
  {
    OrderedIsStrict(st);
    Sorting.SortIdempotent(BindingKey, st.active);
    Sorting.SortIdempotent(RevocationKey, st.revoked);
  }
}
