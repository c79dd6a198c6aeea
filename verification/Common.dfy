/** What several of the models share. */
module Common {

  datatype Option<+T> = None | Some(value: T)

  /** ShiftTimeLimit, 2^30: where the kernels' clock wraps around. */
  const WRAP: int := 0x4000_0000

  function Max0(x: int): nat { if x < 0 then 0 else x }

  /** No element of the list comes twice. */
  ghost predicate Once<T>(list: seq<T>) {
    forall x :: x in list ==> multiset(list)[x] == 1
  }

  lemma OnceTail<T>(list: seq<T>)
    requires list != [] && Once(list)
    ensures Once(list[1..]) && list[0] !in list[1..] && forall x :: x in list <==> x == list[0] || x in list[1..]
  {
    assert list == [list[0]] + list[1..];
    assert multiset(list)[list[0]] == 1;
    assert forall x :: x in list[1..] ==>
      multiset(list)[x] == multiset(list[1..])[x] + if x == list[0] then 1 else 0;
  }

  /** The i-th element is not among those before. */
  lemma OnceAt<T>(list: seq<T>, i: nat)
    requires Once(list) && i < |list|
    ensures list[i] !in list[..i] && forall x :: x in list[..i + 1] <==> x in list[..i] || x == list[i]
  {
    assert list == list[..i] + [list[i]] + list[i + 1..];
    assert list[i] in list && multiset(list)[list[i]] == 1;
    assert list[..i + 1] == list[..i] + [list[i]];
  }
}
