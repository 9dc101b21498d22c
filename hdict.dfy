/** The job-matrix record: a dictionary from field name to value that is compared by
    structure (the role `hdict` plays in the source), and the total order used to sort a
    list of records. The source imports `hdict` without its definition being available,
    so its ordering is not known; the order chosen here is lexicographic over the record's
    (name, value) cells listed by ascending name, with an absent value below any string. */
module Hdict {
  import opened Wrappers

  /** A record: field name to value; `None` is a regex group that took no part in a match. */
  type Record = map<string, Option<string>>

  /** One field of a record. */
  type Cell = (string, Option<string>)

  /** Lexicographic order over sequences, given a strict order on their elements. */
  predicate Lex<T(==)>(a: seq<T>, b: seq<T>, less: (T, T) -> bool)
  {
    if b == [] then false
    else if a == [] then true
    else if a[0] != b[0] then less(a[0], b[0])
    else Lex(a[1..], b[1..], less)
  }

  /** `less` is a strict total order. */
  ghost predicate StrictTotal<T(!new)>(less: (T, T) -> bool)
  {
    && (forall x :: !less(x, x))
    && (forall x, y, z :: less(x, y) && less(y, z) ==> less(x, z))
    && (forall x, y :: x != y ==> less(x, y) || less(y, x))
  }

  lemma {:induction false} LexIrreflexive<T(!new)>(a: seq<T>, less: (T, T) -> bool)
    requires StrictTotal(less)
    ensures !Lex(a, a, less)
  {
    if a != [] { LexIrreflexive(a[1..], less); }
  }

  lemma {:induction false} LexTransitive<T(!new)>(a: seq<T>, b: seq<T>, c: seq<T>, less: (T, T) -> bool)
    requires StrictTotal(less)
    requires Lex(a, b, less) && Lex(b, c, less)
    ensures Lex(a, c, less)
  {
    if a != [] && a[0] == b[0] && b[0] == c[0] {
      LexTransitive(a[1..], b[1..], c[1..], less);
    }
  }

  lemma {:induction false} LexTotal<T(!new)>(a: seq<T>, b: seq<T>, less: (T, T) -> bool)
    requires StrictTotal(less)
    requires a != b
    ensures Lex(a, b, less) || Lex(b, a, less)
  {
    if a != [] && b != [] && a[0] == b[0] {
      assert a == [a[0]] + a[1..] && b == [b[0]] + b[1..];
      LexTotal(a[1..], b[1..], less);
    }
  }

  /** Python's string order: code point by code point, a proper prefix first. */
  function CharBelow(x: char, y: char): bool { x < y }

  predicate Below(a: string, b: string)
  {
    Lex(a, b, CharBelow)
  }

  lemma CharBelowStrictTotal()
    ensures StrictTotal(CharBelow)
  {
  }

  lemma BelowIrreflexive(a: string)
    ensures !Below(a, a)
  {
    CharBelowStrictTotal();
    LexIrreflexive(a, CharBelow);
  }

  lemma BelowTransitive(a: string, b: string, c: string)
    requires Below(a, b) && Below(b, c)
    ensures Below(a, c)
  {
    CharBelowStrictTotal();
    LexTransitive(a, b, c, CharBelow);
  }

  lemma BelowTotal(a: string, b: string)
    requires a != b
    ensures Below(a, b) || Below(b, a)
  {
    CharBelowStrictTotal();
    LexTotal(a, b, CharBelow);
  }

  /** `x` is the smallest string of `s`. */
  predicate IsLeast(x: string, s: set<string>)
  {
    x in s && forall y :: y in s && y != x ==> Below(x, y)
  }

  lemma LeastExists(s: set<string>)
    requires s != {}
    ensures exists x :: IsLeast(x, s)
    decreases |s|
  {
    var y :| y in s;
    var rest := s - {y};
    if rest == {} {
      assert s == {y};
      assert IsLeast(y, s);
    } else {
      LeastExists(rest);
      var z :| IsLeast(z, rest);
      if Below(y, z) {
        forall w | w in s && w != y ensures Below(y, w) {
          if w != z { BelowTransitive(y, z, w); }
        }
        assert IsLeast(y, s);
      } else {
        BelowTotal(y, z);
        assert IsLeast(z, s);
      }
    }
  }

  lemma LeastUnique(s: set<string>, x: string, x': string)
    requires IsLeast(x, s) && IsLeast(x', s)
    ensures x == x'
  {
    if x != x' {
      BelowTransitive(x, x', x);
      BelowIrreflexive(x);
    }
  }

  /** The smallest string of a non-empty set. */
  function Least(s: set<string>): (x: string)
    requires s != {}
    ensures IsLeast(x, s)
  {
    LeastExists(s);
    forall x, x' | IsLeast(x, s) && IsLeast(x', s) ensures x == x' { LeastUnique(s, x, x'); }
    var x :| IsLeast(x, s); x
  }

  /** Strictly ascending strings. */
  predicate Increasing(names: seq<string>)
  {
    forall i, j :: 0 <= i < j < |names| ==> Below(names[i], names[j])
  }

  /** The field names of a record, in ascending order. */
  function SortedNames(s: set<string>): (names: seq<string>)
    ensures forall n :: n in names <==> n in s
    ensures Increasing(names)
    ensures |names| == |s|
    decreases |s|
  {
    if s == {} then []
    else
      var x := Least(s);
      var rest := SortedNames(s - {x});
      forall j | 0 <= j < |rest| ensures Below(x, rest[j]) {
        assert rest[j] in s - {x};
      }
      [x] + rest
  }

  /** The cells of `r` for the given names, in their order. */
  function CellsFor(names: seq<string>, r: Record): (cells: seq<Cell>)
    requires forall i :: 0 <= i < |names| ==> names[i] in r
    ensures |cells| == |names|
    ensures forall i :: 0 <= i < |cells| ==> cells[i].0 == names[i] && cells[i].1 == r[names[i]]
  {
    seq(|names|, i requires 0 <= i < |names| => (names[i], r[names[i]]))
  }

  /** A record's cells, listed by ascending field name. */
  function Fields(r: Record): (cells: seq<Cell>)
    ensures |cells| == |r|
    ensures forall i, j :: 0 <= i < j < |cells| ==> Below(cells[i].0, cells[j].0)
    ensures forall i :: 0 <= i < |cells| ==> cells[i].0 in r && cells[i].1 == r[cells[i].0]
    ensures forall n :: n in r ==> exists i :: 0 <= i < |cells| && cells[i].0 == n
  {
    var names := SortedNames(r.Keys);
    var cells := CellsFor(names, r);
    forall n | n in r ensures exists i :: 0 <= i < |cells| && cells[i].0 == n {
      var i :| 0 <= i < |names| && names[i] == n;
      assert cells[i].0 == n;
    }
    cells
  }

  /** A record is determined by its cells. */
  lemma FieldsInjective(a: Record, b: Record)
    requires Fields(a) == Fields(b)
    ensures a == b
  {
    CellsDetermine(a, b, Fields(a));
  }

  /** Two records that both have exactly the given cells are equal. */
  lemma CellsDetermine(a: Record, b: Record, cells: seq<Cell>)
    requires forall i :: 0 <= i < |cells| ==> cells[i].0 in a && cells[i].1 == a[cells[i].0]
    requires forall i :: 0 <= i < |cells| ==> cells[i].0 in b && cells[i].1 == b[cells[i].0]
    requires forall n :: n in a ==> exists i :: 0 <= i < |cells| && cells[i].0 == n
    requires forall n :: n in b ==> exists i :: 0 <= i < |cells| && cells[i].0 == n
    ensures a == b
  {
  }

  /** Order on field values: an absent value first, then strings in order. */
  function ValueBelow(x: Option<string>, y: Option<string>): bool
  {
    match (x, y)
    case (None, Some(_)) => true
    case (Some(a), Some(b)) => Below(a, b)
    case _ => false
  }

  /** Order on cells: by name, then by value. */
  function CellBelow(c: Cell, d: Cell): bool
  {
    Below(c.0, d.0) || (c.0 == d.0 && ValueBelow(c.1, d.1))
  }

  lemma CellBelowStrictTotal()
    ensures StrictTotal(CellBelow)
  {
    forall c: Cell ensures !CellBelow(c, c) {
      BelowIrreflexive(c.0);
      if c.1.Some? { BelowIrreflexive(c.1.value); }
    }
    forall c: Cell, d: Cell, e: Cell | CellBelow(c, d) && CellBelow(d, e) ensures CellBelow(c, e) {
      if Below(c.0, d.0) && Below(d.0, e.0) { BelowTransitive(c.0, d.0, e.0); }
      if c.1.Some? && d.1.Some? && e.1.Some? && Below(c.1.value, d.1.value) && Below(d.1.value, e.1.value) {
        BelowTransitive(c.1.value, d.1.value, e.1.value);
      }
    }
    forall c: Cell, d: Cell | c != d ensures CellBelow(c, d) || CellBelow(d, c) {
      if c.0 != d.0 {
        BelowTotal(c.0, d.0);
      } else if c.1.Some? && d.1.Some? {
        BelowTotal(c.1.value, d.1.value);
      }
    }
  }

  /** The order `sorted` uses on job-matrix records. */
  predicate RecordBelow(a: Record, b: Record)
  {
    Lex(Fields(a), Fields(b), CellBelow)
  }

  /** Records whose first cells differ are ordered by those cells. */
  lemma RecordBelowByFirstCell(a: Record, b: Record)
    requires |Fields(a)| > 0 && |Fields(b)| > 0 && Fields(a)[0] != Fields(b)[0]
    ensures RecordBelow(a, b) <==> CellBelow(Fields(a)[0], Fields(b)[0])
  {
  }

  lemma RecordBelowIrreflexive(a: Record)
    ensures !RecordBelow(a, a)
  {
    CellBelowStrictTotal();
    LexIrreflexive(Fields(a), CellBelow);
  }

  lemma RecordBelowTransitive(a: Record, b: Record, c: Record)
    requires RecordBelow(a, b) && RecordBelow(b, c)
    ensures RecordBelow(a, c)
  {
    CellBelowStrictTotal();
    LexTransitive(Fields(a), Fields(b), Fields(c), CellBelow);
  }

  /** Any two different records are ordered one way or the other. */
  lemma RecordBelowTotal(a: Record, b: Record)
    requires a != b
    ensures RecordBelow(a, b) || RecordBelow(b, a)
  {
    CellBelowStrictTotal();
    if Fields(a) == Fields(b) { FieldsInjective(a, b); }
    LexTotal(Fields(a), Fields(b), CellBelow);
  }

  /** `RecordBelow` is a strict total order, so `sorted` is well defined on records. */
  lemma RecordBelowStrictTotal()
    ensures StrictTotal(RecordBelow)
  {
    forall a: Record ensures !RecordBelow(a, a) { RecordBelowIrreflexive(a); }
    forall a: Record, b: Record, c: Record | RecordBelow(a, b) && RecordBelow(b, c) ensures RecordBelow(a, c) {
      RecordBelowTransitive(a, b, c);
    }
    forall a: Record, b: Record | a != b ensures RecordBelow(a, b) || RecordBelow(b, a) {
      RecordBelowTotal(a, b);
    }
  }
}
