/** The orders in which pandas lays out the keys it sorts: strings compare by
    code point, lexicographically (Python's `str <`), and composite keys compare
    level by level. */
module Ordering {
  import opened Sequences

  /** Python's `a < b` on strings. */
  predicate StrLess(a: string, b: string)
  {
    if a == [] then b != []
    else if b == [] then false
    else if a[0] != b[0] then a[0] < b[0]
    else StrLess(a[1..], b[1..])
  }

  lemma {:induction false} StrLessIrreflexive(a: string)
    ensures !StrLess(a, a)
  {
    if a != [] {
      StrLessIrreflexive(a[1..]);
    }
  }

  lemma {:induction false} StrLessTransitive(a: string, b: string, c: string)
    requires StrLess(a, b) && StrLess(b, c)
    ensures StrLess(a, c)
  {
    if a != [] && a[0] == b[0] && b[0] == c[0] {
      StrLessTransitive(a[1..], b[1..], c[1..]);
    }
  }

  lemma {:induction false} StrLessTotal(a: string, b: string)
    requires a != b
    ensures StrLess(a, b) || StrLess(b, a)
  {
    if a != [] && b != [] && a[0] == b[0] {
      assert a == [a[0]] + a[1..] && b == [b[0]] + b[1..];
      StrLessTotal(a[1..], b[1..]);
    }
  }

  /** Order of the (District, Year) index that `pivot` produces. */
  predicate DistrictYearLess(a: (string, int), b: (string, int))
  {
    StrLess(a.0, b.0) || (a.0 == b.0 && a.1 < b.1)
  }

  /** Order of the (Year, Metric) groups that `groupby` produces. */
  predicate YearMetricLess(a: (int, string), b: (int, string))
  {
    a.0 < b.0 || (a.0 == b.0 && StrLess(a.1, b.1))
  }

  lemma DistrictYearOrder()
    ensures StrictTotalOrder(DistrictYearLess)
  {
    forall a: (string, int) ensures !DistrictYearLess(a, a) {
      StrLessIrreflexive(a.0);
    }
    forall a: (string, int), b: (string, int), c: (string, int) | DistrictYearLess(a, b) && DistrictYearLess(b, c)
      ensures DistrictYearLess(a, c)
    {
      if StrLess(a.0, b.0) && StrLess(b.0, c.0) {
        StrLessTransitive(a.0, b.0, c.0);
      }
    }
    forall a: (string, int), b: (string, int) | a != b
      ensures DistrictYearLess(a, b) || DistrictYearLess(b, a)
    {
      if a.0 != b.0 {
        StrLessTotal(a.0, b.0);
      }
    }
  }

  lemma YearMetricOrder()
    ensures StrictTotalOrder(YearMetricLess)
  {
    forall a: (int, string) ensures !YearMetricLess(a, a) {
      StrLessIrreflexive(a.1);
    }
    forall a: (int, string), b: (int, string), c: (int, string) | YearMetricLess(a, b) && YearMetricLess(b, c)
      ensures YearMetricLess(a, c)
    {
      if a.0 == b.0 == c.0 {
        StrLessTransitive(a.1, b.1, c.1);
      }
    }
    forall a: (int, string), b: (int, string) | a != b
      ensures YearMetricLess(a, b) || YearMetricLess(b, a)
    {
      if a.1 != b.1 {
        StrLessTotal(a.1, b.1);
      }
    }
  }
}
