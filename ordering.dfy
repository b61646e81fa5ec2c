/** The orderings the dashboards ask the store for: ORDER BY date, time
    (ascending) and ORDER BY date DESC, time DESC. Both columns hold text, so
    the store compares them code point by code point; for the fixed-width
    'YYYY-MM-DD' and 'HH:MM' formats that is calendar and clock order. */
module Ordering {
  import opened Models

  /** Lexicographic order on strings, the ordering of the store's text
      comparison (and of Python's string comparison). */
  predicate LexLe(a: string, b: string)
    decreases |a|
  {
    if a == [] then true
    else if b == [] then false
    else if a[0] != b[0] then a[0] < b[0]
    else LexLe(a[1..], b[1..])
  }

  lemma {:induction false} LexLeTotal(a: string, b: string)
    ensures LexLe(a, b) || LexLe(b, a)
  {
    if a != [] && b != [] && a[0] == b[0] {
      LexLeTotal(a[1..], b[1..]);
    }
  }

  lemma {:induction false} LexLeAntisymmetric(a: string, b: string)
    requires LexLe(a, b) && LexLe(b, a)
    ensures a == b
  {
    if a != [] && b != [] {
      LexLeAntisymmetric(a[1..], b[1..]);
      assert a == [a[0]] + a[1..] && b == [b[0]] + b[1..];
    }
  }

  lemma {:induction false} LexLeTransitive(a: string, b: string, c: string)
    requires LexLe(a, b) && LexLe(b, c)
    ensures LexLe(a, c)
  {
    if a != [] && b != [] && c != [] && a[0] == b[0] && b[0] == c[0] {
      LexLeTransitive(a[1..], b[1..], c[1..]);
    }
  }

  /** ORDER BY date, time: the date decides, the time breaks ties. */
  predicate KeyLe(x: Appointment, y: Appointment)
  {
    if x.date != y.date then LexLe(x.date, y.date) else LexLe(x.time, y.time)
  }

  datatype Direction = Ascending | Descending

  predicate Precedes(dir: Direction, x: Appointment, y: Appointment)
  {
    match dir
    case Ascending => KeyLe(x, y)
    case Descending => KeyLe(y, x)
  }

  lemma KeyLeTotal(x: Appointment, y: Appointment)
    ensures KeyLe(x, y) || KeyLe(y, x)
  {
    LexLeTotal(x.date, y.date);
    LexLeTotal(x.time, y.time);
  }

  lemma KeyLeTransitive(x: Appointment, y: Appointment, z: Appointment)
    requires KeyLe(x, y) && KeyLe(y, z)
    ensures KeyLe(x, z)
  {
    if x.date != y.date && y.date != z.date {
      LexLeTransitive(x.date, y.date, z.date);
      if x.date == z.date {
        LexLeAntisymmetric(x.date, y.date);
      }
    } else if x.date == y.date && y.date == z.date {
      LexLeTransitive(x.time, y.time, z.time);
    }
  }

  lemma PrecedesTotal(dir: Direction, x: Appointment, y: Appointment)
    ensures Precedes(dir, x, y) || Precedes(dir, y, x)
  {
    KeyLeTotal(x, y);
  }

  lemma PrecedesTransitive(dir: Direction, x: Appointment, y: Appointment, z: Appointment)
    requires Precedes(dir, x, y) && Precedes(dir, y, z)
    ensures Precedes(dir, x, z)
  {
    if dir == Ascending {
      KeyLeTransitive(x, y, z);
    } else {
      KeyLeTransitive(z, y, x);
    }
  }

  /** Every earlier element comes before every later one. */
  predicate Sorted(dir: Direction, s: seq<Appointment>)
  {
    forall i, j :: 0 <= i < j < |s| ==> Precedes(dir, s[i], s[j])
  }

  /** Inserts x into a sorted sequence before its first element that x precedes. */
  function Insert(dir: Direction, x: Appointment, s: seq<Appointment>): (r: seq<Appointment>)
    requires Sorted(dir, s)
    ensures Sorted(dir, r)
    ensures multiset(r) == multiset(s) + multiset{x}
  {
    if s == [] then [x]
    else if Precedes(dir, x, s[0]) then
      assert forall j :: 0 <= j < |s| ==> Precedes(dir, x, s[j]) by {
        forall j | 0 <= j < |s| ensures Precedes(dir, x, s[j]) {
          if j > 0 { PrecedesTransitive(dir, x, s[0], s[j]); }
        }
      }
      [x] + s
    else
      var t := Insert(dir, x, s[1..]);
      assert s == [s[0]] + s[1..];
      assert forall j :: 0 <= j < |t| ==> Precedes(dir, s[0], t[j]) by {
        PrecedesTotal(dir, x, s[0]);
        forall j | 0 <= j < |t| ensures Precedes(dir, s[0], t[j]) {
          assert t[j] in multiset(t);
          if t[j] != x {
            assert t[j] in multiset(s[1..]);
            var k :| 0 <= k < |s[1..]| && s[1..][k] == t[j];
            assert s[k + 1] == t[j];
          }
        }
      }
      [s[0]] + t
  }

  /** The result of an ORDER BY: the same rows (as a multiset), in order.
      Rows whose keys tie come out in some order; this one is the order of
      an insertion sort. */
  function SortBy(dir: Direction, s: seq<Appointment>): (r: seq<Appointment>)
    ensures Sorted(dir, r)
    ensures multiset(r) == multiset(s)
    ensures |r| == |s|
  {
    if s == [] then []
    else
      assert s == [s[0]] + s[1..];
      Insert(dir, s[0], SortBy(dir, s[1..]))
  }
}
