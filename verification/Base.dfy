/** Types and sequence facts shared by the models. */
module Base {

  datatype Option<+T> = None | Some(value: T)

  type byte = n: int | 0 <= n < 0x100
  type u32 = n: int | 0 <= n < 0x1_0000_0000
  type u64 = n: int | 0 <= n < 0x1_0000_0000_0000_0000

  /** `a` is obtained from `b` by deleting elements. */
  ghost predicate Subseq<T>(a: seq<T>, b: seq<T>) {
    if a == [] then true
    else if b == [] then false
    else if a[|a| - 1] == b[|b| - 1] then Subseq(a[..|a| - 1], b[..|b| - 1])
    else Subseq(a, b[..|b| - 1])
  }

  lemma {:induction false} SubseqWiden<T>(a: seq<T>, b: seq<T>, x: T)
    requires Subseq(a, b)
    ensures Subseq(a, b + [x])
    decreases |b|, 1
  {
    assert (b + [x])[..|b|] == b;
    if a != [] && a[|a| - 1] == x {
      SubseqShrink(a, b);
    }
  }

  lemma {:induction false} SubseqShrink<T>(a: seq<T>, b: seq<T>)
    requires a != [] && Subseq(a, b)
    ensures Subseq(a[..|a| - 1], b)
    decreases |b|, 0
  {
    var a', b' := a[..|a| - 1], b[..|b| - 1];
    if a[|a| - 1] == b[|b| - 1] {
      SubseqWiden(a', b', b[|b| - 1]);
    } else {
      SubseqShrink(a, b');
      SubseqWiden(a', b', b[|b| - 1]);
    }
    assert b' + [b[|b| - 1]] == b;
  }

  lemma SubseqSnoc<T>(a: seq<T>, b: seq<T>, x: T)
    requires Subseq(a, b)
    ensures Subseq(a + [x], b + [x])
  {
    assert (a + [x])[..|a|] == a && (b + [x])[..|b|] == b;
  }

  /** A new first element may be taken or left out. */
  lemma {:induction false} SubseqCons<T>(x: T, a: seq<T>, b: seq<T>)
    requires Subseq(a, b)
    ensures Subseq([x] + a, [x] + b) && Subseq(a, [x] + b)
    decreases |b|
  {
    if b == [] {
      assert [x] + a == [x] && [x] + b == [x] && [x][..0] == [];
    } else {
      var b' := b[..|b| - 1];
      assert ([x] + b)[..|b|] == [x] + b';
      if a != [] {
        var a' := a[..|a| - 1];
        assert ([x] + a)[..|a|] == [x] + a';
        if a[|a| - 1] == b[|b| - 1] {
          SubseqCons(x, a', b');
        } else {
          SubseqCons(x, a, b');
        }
      } else {
        SubseqCons(x, [], b');
        assert [x] + [] == [x];
        SubseqWiden([x], [x] + b', b[|b| - 1]);
        assert [x] + b' + [b[|b| - 1]] == [x] + b;
      }
    }
  }

  lemma {:induction false} SubseqMember<T>(a: seq<T>, b: seq<T>, x: T)
    requires Subseq(a, b) && x in a
    ensures x in b
  {
    if a[|a| - 1] == b[|b| - 1] {
      if x != a[|a| - 1] {
        SubseqMember(a[..|a| - 1], b[..|b| - 1], x);
      }
    } else {
      SubseqMember(a, b[..|b| - 1], x);
    }
  }
}
