/** The move list: a fixed array and the number of its entries in use. */
module MoveList {

  import opened Lists

  class MoveArray<T(==)> {
    const moves: array<T>
    var size: nat

    ghost predicate Valid()
      reads this
    {
      size <= moves.Length
    }

    ghost function Contents(): seq<T>
      requires Valid()
      reads this, moves
    {
      moves[..size]
    }

    constructor (storage: array<T>)
      ensures Valid() && moves == storage && Contents() == []
    {
      moves, size := storage, 0;
    }

    method Clear()
      modifies this`size
      ensures Valid() && Contents() == []
    {
      size := 0;
    }

    method PushBack(m: T)
      requires Valid() && size < moves.Length
      modifies this`size, moves
      ensures Valid() && Contents() == old(Contents()) + [m]
    {
      moves[size] := m;
      size := size + 1;
    }

    /** `random`: any entry. */
    method Random() returns (m: T)
      requires Valid() && size > 0
      ensures m in Contents()
    {
      var i :| 0 <= i < size;
      m := moves[i];
    }

    method Find(m: T) returns (found: bool)
      requires Valid()
      ensures found <==> m in Contents()
    {
      for i := 0 to size
        invariant m !in moves[..i]
      {
        if moves[i] == m { return true; }
      }
      return false;
    }

    /** The last entry takes the place of the `i`-th, and the list gets shorter. */
    method FillGap(i: nat)
      requires Valid() && i < size
      modifies this`size, moves
      ensures Valid() && size == old(size) - 1
      ensures multiset(Contents()) + multiset{old(moves[i])} == old(multiset(Contents()))
    {
      ghost var s := Contents();
      size := size - 1;
      moves[i] := moves[size];
      assert Contents() == Drawn(s, i);
      DrawnRest(s, i);
    }

    /** `draw`: any entry, which is taken off the list. */
    method Draw() returns (m: T)
      requires Valid() && size > 0
      modifies this`size, moves
      ensures Valid() && size == old(size) - 1 && multiset(Contents()) + multiset{m} == old(multiset(Contents()))
    {
      ghost var s := Contents();
      if size == 1 {
        size := size - 1;
        m := moves[size];
        DropLast(s);
      } else {
        var i :| 0 <= i < size;
        m := moves[i];
        FillGap(i);
      }
    }

    /** `remove`: takes one entry that equals `m` off the list, if there is one. On an empty list the
        original reads before the start of the array, unless the unused first place holds `m`. */
    method Remove(m: T)
      requires Valid() && (size > 0 || (moves.Length > 0 && moves[0] == m))
      modifies this`size, moves
      ensures Valid()
      ensures if m in old(Contents()) then multiset(Contents()) + multiset{m} == old(multiset(Contents()))
              else Contents() == old(Contents())
    {
      ghost var s := Contents();
      if size < 2 && moves[0] == m {
        size := 0;
        assert s == [] || s == [m];
        return;
      }
      var last := size - 1;
      for i := 0 to last
        invariant size == last + 1 <= moves.Length && Contents() == s && m !in s[..i]
      {
        if moves[i] == m {
          FillGap(i);
          return;
        }
      }
      if moves[last] == m {
        size := size - 1;
        DropLast(s);
      }
    }
  }
}
