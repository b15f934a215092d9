/** The customer queries of FUMiniHotelSystem.DataAccess/CustomerRepository.cs. */
module CustomerRepository {
  import opened Wrappers
  import opened Sequences
  import opened Models

  /** Case folding used by the ordinal case-insensitive comparison (ASCII letters only). */
  function FoldCase(c: char): char
  {
    if 'a' <= c <= 'z' then (c as int - 32) as char else c
  }

  /** `String.Equals(other, StringComparison.OrdinalIgnoreCase)`. */
  predicate EqualsIgnoreCase(a: string, b: string)
  {
    |a| == |b| && forall i :: 0 <= i < |a| ==> FoldCase(a[i]) == FoldCase(b[i])
  }

  /** Case-insensitive equality is an equivalence relation. */
  lemma EqualsIgnoreCaseIsEquivalence(a: string, b: string, c: string)
    ensures EqualsIgnoreCase(a, a)
    ensures EqualsIgnoreCase(a, b) ==> EqualsIgnoreCase(b, a)
    ensures EqualsIgnoreCase(a, b) && EqualsIgnoreCase(b, c) ==> EqualsIgnoreCase(a, c)
  {
  }

  /** Upper and lower case letters compare equal. */
  lemma EqualsIgnoreCaseExample()
    ensures EqualsIgnoreCase("Ann@Hotel.com", "ann@hotel.COM")
    ensures !EqualsIgnoreCase("ann@hotel.com", "ann@hotel.con")
  {
    assert FoldCase("ann@hotel.com"[12]) != FoldCase("ann@hotel.con"[12]);
  }

  /**
   * `GetByEmailAsync`: the first customer, in store order, whose address equals
   * `email` ignoring case; `None` (C# null) exactly when no address matches.
   */
  function GetByEmail(customers: seq<Customer>, email: string): (r: Option<Customer>)
    ensures r.None? <==> forall i :: 0 <= i < |customers| ==> !EqualsIgnoreCase(customers[i].EmailAddress, email)
    ensures r.Some? ==> exists k :: 0 <= k < |customers| && customers[k] == r.value &&
                          EqualsIgnoreCase(customers[k].EmailAddress, email) &&
                          forall j :: 0 <= j < k ==> !EqualsIgnoreCase(customers[j].EmailAddress, email)
  {
    Find((c: Customer) => EqualsIgnoreCase(c.EmailAddress, email), customers)
  }

  /** Two spellings of an address that differ only in case find the same customer. */
  lemma {:induction false} GetByEmailIgnoresCase(customers: seq<Customer>, email: string, other: string)
    requires EqualsIgnoreCase(email, other)
    ensures GetByEmail(customers, email) == GetByEmail(customers, other)
  {
    forall i | 0 <= i < |customers|
      ensures EqualsIgnoreCase(customers[i].EmailAddress, email) == EqualsIgnoreCase(customers[i].EmailAddress, other)
    {
      EqualsIgnoreCaseIsEquivalence(customers[i].EmailAddress, email, other);
      EqualsIgnoreCaseIsEquivalence(customers[i].EmailAddress, other, email);
      EqualsIgnoreCaseIsEquivalence(email, other, email);
    }
    FindCongruent((c: Customer) => EqualsIgnoreCase(c.EmailAddress, email),
                  (c: Customer) => EqualsIgnoreCase(c.EmailAddress, other), customers);
  }

  /** `GetActiveCustomersAsync`: the active customers, in store order. */
  function GetActiveCustomers(customers: seq<Customer>): (r: seq<Customer>)
    ensures forall c :: c in r <==> c in customers && c.CustomerStatus == Active
    ensures forall c :: multiset(r)[c] == if c.CustomerStatus == Active then multiset(customers)[c] else 0
    ensures Subseq(r, customers) && |r| <= |customers|
  {
    var p := (c: Customer) => c.CustomerStatus == Active;
    FilterSpec(p, customers);
    Filter(p, customers)
  }
}
