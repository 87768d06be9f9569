/**
 * The process-wide table of named ephemeris constants: loaded in bulk from
 * the ephemeris reader's constant routine, sorted by name with `strcmp`
 * order, and searched by exact name. A lookup that finds nothing answers
 * None where the C code answers NaN.
 */
module EphConsts {
  import opened Text
  import opened Wrappers

  /** One named constant. */
  datatype EphConst = EphConst(name: string, value: real)

  /** Capacity of the name and value buffers handed to the constant routine. */
  const Cdim: int := 600

  /** Width of one blank-padded name in the routine's name buffer. */
  const NamLen: int := 6

  /** Width of slot `i` of the routine's name buffer. */
  function Slot(names: string, i: nat): (s: string)
    requires NamLen * (i + 1) <= |names|
    ensures |s| == NamLen
  {
    names[NamLen * i .. NamLen * i + NamLen]
  }

  /**
   * The first `n` constants the routine delivered, in delivery order: slot
   * i's name without its padding blanks, paired with value i. Every name
   * fits in the six characters of its slot.
   */
  function Loaded(names: string, vals: seq<real>, n: nat): (t: seq<EphConst>)
    requires NamLen * n <= |names| && n <= |vals|
    ensures |t| == n
    ensures forall i :: 0 <= i < n ==> |t[i].name| <= NamLen && t[i].value == vals[i]
  {
    seq(n, i requires 0 <= i < n => EphConst(RTrim(Slot(names, i)), vals[i]))
  }

  /** Names ascend in `strcmp` order, as `qsort` with `cmp_eph_const` leaves them. */
  ghost predicate SortedByName(t: seq<EphConst>)
  {
    forall i, j :: 0 <= i < j < |t| ==> StrCmp(t[i].name, t[j].name) <= 0
  }

  /** Some entry of `t` carries exactly the name `nam`. */
  ghost predicate HasName(t: seq<EphConst>, nam: string)
  {
    exists i :: 0 <= i < |t| && t[i].name == nam
  }

  /** No two entries of `t` share a name. */
  ghost predicate DistinctNames(t: seq<EphConst>)
  {
    forall i, j :: 0 <= i < j < |t| ==> t[i].name != t[j].name
  }

  /**
   * `e` placed in front of the first entry of `t` whose name is not smaller:
   * the step of sorting by insertion. It adds exactly `e` to the entries.
   */
  function Insert(e: EphConst, t: seq<EphConst>): (r: seq<EphConst>)
    ensures multiset(r) == multiset(t) + multiset{e}
  {
    if t == [] || StrCmp(e.name, t[0].name) <= 0 then
      [e] + t
    else
      assert t == [t[0]] + t[1..];
      [t[0]] + Insert(e, t[1..])
  }

  /** Inserting into a sorted table keeps it sorted. */
  lemma {:induction false} InsertSorted(e: EphConst, t: seq<EphConst>)
    requires SortedByName(t)
    ensures SortedByName(Insert(e, t))
  {
    if t == [] || StrCmp(e.name, t[0].name) <= 0 {
      forall j | 1 <= j < |t| ensures StrCmp(e.name, t[j].name) <= 0 {
        StrCmpTransitive(e.name, t[0].name, t[j].name);
      }
      PrependSorted(e, t);
    } else {
      var rest := Insert(e, t[1..]);
      InsertSorted(e, t[1..]);
      forall j | 0 <= j < |rest| ensures StrCmp(t[0].name, rest[j].name) <= 0 {
        assert rest[j] in multiset(rest);
        if rest[j] == e {
          StrCmpAntisymmetric(e.name, t[0].name);
        } else {
          assert rest[j] in t[1..];
        }
      }
      PrependSorted(t[0], rest);
    }
  }

  /** An entry no larger than the head of a sorted table may go in front of it. */
  lemma PrependSorted(e: EphConst, t: seq<EphConst>)
    requires SortedByName(t)
    requires forall j :: 0 <= j < |t| ==> StrCmp(e.name, t[j].name) <= 0
    ensures SortedByName([e] + t)
  {
  }

  /**
   * The `qsort` call: any sorted permutation is what it promises; this one
   * is built by insertion.
   */
  method SortByName(s: seq<EphConst>) returns (r: seq<EphConst>)
    ensures SortedByName(r)
    ensures multiset(r) == multiset(s)
  {
    r := [];
    for i := 0 to |s|
      invariant SortedByName(r)
      invariant multiset(r) == multiset(s[..i])
    {
      assert s[..i + 1] == s[..i] + [s[i]];
      InsertSorted(s[i], r);
      r := Insert(s[i], r);
    }
    assert s[..|s|] == s;
  }

  /**
   * Every constant delivered is in the sorted table under its name: a sorted
   * permutation of the delivered entries loses none of them.
   */
  lemma LoadedNameFound(t: seq<EphConst>, delivered: seq<EphConst>, k: nat)
    requires multiset(t) == multiset(delivered)
    requires k < |delivered|
    ensures HasName(t, delivered[k].name)
  {
    assert delivered[k] in multiset(delivered);
    var i :| 0 <= i < |t| && t[i] == delivered[k];
  }

  /**
   * When the delivered names are distinct, an entry of the sorted table that
   * carries a delivered name carries that constant's own value.
   */
  lemma LoadedValueExact(t: seq<EphConst>, delivered: seq<EphConst>, k: nat, v: real)
    requires multiset(t) == multiset(delivered)
    requires DistinctNames(delivered)
    requires k < |delivered|
    requires EphConst(delivered[k].name, v) in t
    ensures v == delivered[k].value
  {
    var e := EphConst(delivered[k].name, v);
    assert e in multiset(delivered);
    var j :| 0 <= j < |delivered| && delivered[j] == e;
    assert j == k;
  }

  /**
   * The table itself: the file-scope `eph_consts` array with its length
   * `nbr_of_eph_consts`, and the three Julian Dates `eph_jd` the constant
   * routine also reports.
   */
  class EphConstTable {
    var consts: seq<EphConst>
    var count: int
    var ephJd: seq<real>

    /** The count matches the table, stays below the buffer capacity, and the table is sorted. */
    ghost predicate Valid()
      reads this
    {
      && count == |consts|
      && count < Cdim
      && SortedByName(consts)
      && |ephJd| == 3
    }

    /** The table before the first load: empty, with zeroed dates. */
    constructor ()
      ensures Valid()
      ensures consts == [] && count == 0 && ephJd == [0.0, 0.0, 0.0]
    {
      consts := [];
      count := 0;
      ephJd := [0.0, 0.0, 0.0];
    }

    /**
     * `init_eph_const`: drop the old table, then take the routine's count
     * `n`, its blank-padded names and its values. A count outside 1..599 or a
     * failed allocation (`allocOk` false) leaves the table empty; otherwise
     * the table holds the n delivered constants, names trimmed, sorted by
     * name. Nothing of the table before the call survives it.
     */
    method Init(n: int, names: string, vals: seq<real>, jdRange: seq<real>, allocOk: bool)
      requires Valid()
      requires |names| == Cdim * NamLen && |vals| == Cdim && |jdRange| == 3
      modifies this
      ensures Valid()
      ensures ephJd == jdRange
      ensures 0 < n < Cdim && allocOk ==>
        count == n && multiset(consts) == multiset(Loaded(names, vals, n))
      ensures !(0 < n < Cdim && allocOk) ==> consts == [] && count == 0
    {
      Free();
      ephJd := jdRange;
      count := n;
      if 0 < count && count < Cdim {
        if !allocOk {
          count := 0;
          return;
        }
        var entries: seq<EphConst> := [];
        var p := 0;
        for i := 0 to count
          invariant p == NamLen * i
          invariant entries == Loaded(names, vals, i)
        {
          entries := entries + [EphConst(RTrim(names[p .. p + NamLen]), vals[i])];
          p := p + NamLen;
        }
        consts := SortByName(entries);
        assert |consts| == |multiset(consts)| == |multiset(entries)| == count;
      } else {
        count := 0;
      }
    }

    /** `free_eph_const`: release the table; harmless when it is already empty. */
    method Free()
      requires Valid()
      modifies this`consts, this`count
      ensures Valid()
      ensures consts == [] && count == 0
    {
      consts := [];
      count := 0;
    }

    /**
     * `get_eph_const`: None on an empty table, for a name of length 0 or
     * more than 6, or when no entry carries exactly `nam`; otherwise the
     * value of an entry named `nam`, found by binary search.
     */
    method Get(nam: string) returns (r: Option<real>)
      requires Valid()
      ensures r.Some? <==> 0 < |nam| <= NamLen && HasName(consts, nam)
      ensures r.Some? ==> EphConst(nam, r.value) in consts
    {
      if count == 0 {
        return None;
      }
      if !(0 < |nam| <= NamLen) {
        return None;
      }
      var lo, hi := 0, count;
      while lo < hi
        invariant 0 <= lo <= hi <= |consts|
        invariant forall k :: 0 <= k < lo ==> consts[k].name != nam
        invariant forall k :: hi <= k < |consts| ==> consts[k].name != nam
      {
        var mid := lo + (hi - lo) / 2;
        var c := StrCmp(nam, consts[mid].name);
        if c < 0 {
          forall k | mid < k < |consts| ensures consts[k].name != nam {
            StrCmpStrictTransitive(nam, consts[mid].name, consts[k].name);
          }
          hi := mid;
        } else if c > 0 {
          StrCmpAntisymmetric(nam, consts[mid].name);
          forall k | 0 <= k < mid ensures consts[k].name != nam {
            StrCmpTransitiveStrict(consts[k].name, consts[mid].name, nam);
          }
          lo := mid + 1;
        } else {
          return Some(consts[mid].value);
        }
      }
      return None;
    }
  }

  /**
   * Loading the table and then asking for one of the delivered constants:
   * when the load succeeds and the delivered names are distinct, the lookup
   * of any non-empty delivered name returns exactly that constant's value.
   */
  method LoadThenGet(n: int, names: string, vals: seq<real>, jdRange: seq<real>, k: nat)
    returns (r: Option<real>)
    requires 0 < n < Cdim
    requires |names| == Cdim * NamLen && |vals| == Cdim && |jdRange| == 3
    requires k < n
    requires DistinctNames(Loaded(names, vals, n))
    requires Loaded(names, vals, n)[k].name != []
    ensures r == Some(vals[k])
  {
    var table := new EphConstTable();
    table.Init(n, names, vals, jdRange, true);
    var delivered := Loaded(names, vals, n);
    LoadedNameFound(table.consts, delivered, k);
    r := table.Get(delivered[k].name);
    LoadedValueExact(table.consts, delivered, k, r.value);
  }
}
