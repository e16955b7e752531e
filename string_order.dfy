/**
 * The order the live table sorts by.  Every cell of the table is a string
 * (`Treeview.set` returns the text of a cell, and the inserted key is
 * `str(...)` of the measurement), so even the numeric columns are compared
 * as Python compares `str` values: code point by code point, a proper
 * prefix first.
 */
module StringOrder {

  /** Python's `a < b` on `str`. */
  predicate Below(a: string, b: string)
    decreases |a|
  {
    if a == [] then b != []
    else if b == [] then false
    else if a[0] != b[0] then a[0] < b[0]
    else Below(a[1..], b[1..])
  }

  lemma {:induction false} BelowIrreflexive(a: string)
    ensures !Below(a, a)
    decreases |a|
  {
    if a != [] {
      BelowIrreflexive(a[1..]);
    }
  }

  lemma {:induction false} BelowTransitive(a: string, b: string, c: string)
    requires Below(a, b) && Below(b, c)
    ensures Below(a, c)
    decreases |a|
  {
    if a != [] && a[0] == b[0] && b[0] == c[0] {
      BelowTransitive(a[1..], b[1..], c[1..]);
    }
  }

  /** Any two different strings are ordered one way or the other. */
  lemma {:induction false} BelowTotal(a: string, b: string)
    ensures a == b || Below(a, b) || Below(b, a)
    decreases |a|
  {
    if a != [] && b != [] && a[0] == b[0] {
      BelowTotal(a[1..], b[1..]);
      if a[1..] == b[1..] {
        assert a == [a[0]] + a[1..] && b == [b[0]] + b[1..];
      }
    }
  }

  lemma BelowAsymmetric(a: string, b: string)
    requires Below(a, b)
    ensures !Below(b, a)
  {
    if Below(b, a) {
      BelowTransitive(a, b, a);
      BelowIrreflexive(a);
    }
  }

  // ---------------------------------------------------------------------
  // The direction-dependent order of a column

  /**
   * `a` sorts strictly before `b` in a column sorted ascending
   * (`reversed` false) or descending (`reversed` true).
   */
  predicate Before(a: string, b: string, reversed: bool)
  {
    if reversed then Below(b, a) else Below(a, b)
  }

  lemma BeforeIrreflexive(a: string, reversed: bool)
    ensures !Before(a, a, reversed)
  {
    BelowIrreflexive(a);
  }

  lemma BeforeTransitive(a: string, b: string, c: string, reversed: bool)
    requires Before(a, b, reversed) && Before(b, c, reversed)
    ensures Before(a, c, reversed)
  {
    if reversed {
      BelowTransitive(c, b, a);
    } else {
      BelowTransitive(a, b, c);
    }
  }

  lemma BeforeAsymmetric(a: string, b: string, reversed: bool)
    requires Before(a, b, reversed)
    ensures !Before(b, a, reversed)
  {
    if reversed {
      BelowAsymmetric(b, a);
    } else {
      BelowAsymmetric(a, b);
    }
  }

  /** Strictly before `b`, then not after `c`: strictly before `c`. */
  lemma BeforeThenNotAfter(a: string, b: string, c: string, reversed: bool)
    requires Before(a, b, reversed) && !Before(c, b, reversed)
    ensures Before(a, c, reversed)
  {
    if b != c {
      if reversed {
        BelowTotal(c, b);
      } else {
        BelowTotal(b, c);
      }
      BeforeTransitive(a, b, c, reversed);
    }
  }

  /** Not after is transitive. */
  lemma NotAfterTransitive(a: string, b: string, c: string, reversed: bool)
    requires !Before(b, a, reversed) && !Before(c, b, reversed)
    ensures !Before(c, a, reversed)
  {
    if Before(c, a, reversed) {
      BeforeThenNotAfter(c, a, b, reversed);
    }
  }
}
