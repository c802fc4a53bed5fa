/** A value that may be missing, and what the other modules share about sequences. */
module Collections {
  datatype Option<+T> = None | Some(value: T)

  ghost predicate Distinct<T>(s: seq<T>) {
    forall i, j :: 0 <= i < j < |s| ==> s[i] != s[j]
  }

  /** slice(0, n): the first n elements, or all of them. */
  function Take<T>(s: seq<T>, n: nat): seq<T> {
    if n <= |s| then s[..n] else s
  }

  ghost predicate Before<T>(whole: seq<T>, x: T, y: T) {
    exists a, b :: 0 <= a < b < |whole| && whole[a] == x && whole[b] == y
  }

  /** The elements of `s` come in the order they have in `whole`. */
  ghost predicate InOrderOf<T>(s: seq<T>, whole: seq<T>) {
    forall i, j :: 0 <= i < j < |s| ==> Before(whole, s[i], s[j])
  }

  lemma NothingInOrder<T>()
    ensures InOrderOf<T>([], [])
  {
  }

  lemma BeforeNext<T>(whole: seq<T>, x: T, y: T, z: T)
    ensures Before(whole, x, y) ==> Before(whole + [z], x, y)
    ensures x in whole ==> Before(whole + [z], x, z)
  {
    var all := whole + [z];
    if Before(whole, x, y) {
      var a, b :| 0 <= a < b < |whole| && whole[a] == x && whole[b] == y;
      assert all[a] == x && all[b] == y;
    }
    if x in whole {
      var a :| 0 <= a < |whole| && whole[a] == x;
      assert all[a] == x && all[|whole|] == z;
    }
  }

  /** Going on by one element of the whole, which may be taken or passed over. */
  lemma InOrderNext<T>(s: seq<T>, whole: seq<T>, x: T)
    requires InOrderOf(s, whole) && forall y :: y in s ==> y in whole
    ensures InOrderOf(s, whole + [x]) && InOrderOf(s + [x], whole + [x])
  {
    hide Before;
    var more := s + [x];
    forall i, j | 0 <= i < j < |s| ensures Before(whole + [x], s[i], s[j]) {
      BeforeNext(whole, s[i], s[j], x);
    }
    forall i, j | 0 <= i < j < |more| ensures Before(whole + [x], more[i], more[j]) {
      if j < |s| {
        assert Before(whole + [x], s[i], s[j]);
      } else {
        BeforeNext(whole, s[i], x, x);
      }
    }
  }

  lemma Regroup<T>(a: seq<T>, b: seq<T>, c: seq<T>)
    ensures a + b + c == a + (b + c)
  {
  }
}
