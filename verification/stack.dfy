/** The image's layer stack as a sequence (index 0 is the top), and the
    insert / remove / rename steps the replacing plugins perform on it. */
module Stack {

  /** `add_layer(x, i)`: `x` goes in at index `i`, the layers from `i` on move down. */
  function InsertAt<T>(s: seq<T>, i: nat, x: T): (r: seq<T>)
    requires i <= |s|
    ensures |r| == |s| + 1 && r[i] == x
    ensures forall k :: 0 <= k < i ==> r[k] == s[k]
    ensures forall k :: i < k < |r| ==> r[k] == s[k - 1]
  {
    s[..i] + [x] + s[i..]
  }

  /** `remove_layer` of the entry at index `i`: the layers below move up. */
  function RemoveAt<T>(s: seq<T>, i: nat): (r: seq<T>)
    requires i < |s|
    ensures |r| == |s| - 1
    ensures forall k :: 0 <= k < i ==> r[k] == s[k]
    ensures forall k :: i <= k < |r| ==> r[k] == s[k + 1]
  {
    s[..i] + s[i + 1..]
  }

  predicate Distinct<T(==)>(s: seq<T>) {
    forall i, j :: 0 <= i < j < |s| ==> s[i] != s[j]
  }

  /** Inserting an entry that is not yet present keeps the entries distinct. */
  lemma InsertKeepsDistinct<T>(s: seq<T>, i: nat, x: T)
    requires Distinct(s) && i <= |s| && x !in s
    ensures Distinct(InsertAt(s, i, x))
  {
    var a := InsertAt(s, i, x);
    forall p, q | 0 <= p < q < |a| ensures a[p] != a[q] {
      if p == i {
        assert a[q] == s[q - 1];
      } else if q == i {
        assert a[p] == s[p];
      }
    }
  }

  /** Inserting at `pos` and removing the entry pushed to `pos + 1` leaves the
      stack as it was with the entry at `pos` replaced. */
  lemma InsertThenRemove<T>(s: seq<T>, pos: nat, x: T)
    requires pos < |s|
    ensures RemoveAt(InsertAt(s, pos, x), pos + 1) == s[pos := x]
  {
    var r := RemoveAt(InsertAt(s, pos, x), pos + 1);
    assert |r| == |s|;
    forall k | 0 <= k < |s| ensures r[k] == s[pos := x][k] { }
  }

  /** The replace protocol on layer names: with distinct names and an unused
      temporary name, the stack keeps distinct names after the insertion of the
      temporary layer, after the removal of the original, and after the rename,
      which restores the original list of names. */
  lemma ReplaceKeepsNamesDistinct<T>(names: seq<T>, pos: nat, temp: T)
    requires Distinct(names) && pos < |names| && temp !in names
    ensures Distinct(InsertAt(names, pos, temp))
    ensures Distinct(RemoveAt(InsertAt(names, pos, temp), pos + 1))
    ensures RemoveAt(InsertAt(names, pos, temp), pos + 1)[pos := names[pos]] == names
  {
    InsertKeepsDistinct(names, pos, temp);
    var a := InsertAt(names, pos, temp);
    InsertThenRemove(names, pos, temp);
    var b := RemoveAt(a, pos + 1);
    assert b == names[pos := temp];
    forall i, j | 0 <= i < j < |b| ensures b[i] != b[j] {
      if i == pos {
        assert b[j] == names[j];
      } else if j == pos {
        assert b[i] == names[i];
      }
    }
  }

  /** Three insertions at the same `pos` stack up in reverse order above the
      entry that was at `pos`. */
  lemma InsertThreeAt<T>(s: seq<T>, pos: nat, r: T, g: T, b: T)
    requires pos <= |s|
    ensures InsertAt(InsertAt(InsertAt(s, pos, r), pos, g), pos, b) == s[..pos] + [b, g, r] + s[pos..]
  {
    var t := InsertAt(InsertAt(InsertAt(s, pos, r), pos, g), pos, b);
    var u := s[..pos] + [b, g, r] + s[pos..];
    assert |t| == |u|;
    forall k | 0 <= k < |t| ensures t[k] == u[k] {
      if k > pos + 2 {
        assert t[k] == s[k - 3];
      }
    }
  }
}
