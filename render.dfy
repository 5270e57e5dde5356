/**
 * The text form of a bit set: "{" then the set bits in ascending order,
 * separated by ",", then "}", where a run of set bits longer than the
 * compaction count is written "first..last". The functions here say what
 * the text is; BitSets.BitSet.String builds it by the loop of the source.
 */
module Rendering {
  import opened Constants
  import opened Tree
  import opened Content
  import opened Iterators

  /** One item of the text: a lone index, or a run of set bits first..last. */
  datatype Entry = Single(n: nat) | Span(first: nat, last: nat)

  /** The least set index in [k, MaxInt32), or -1 when there is none. */
  ghost function NextSetOf(t: Level1, k: nat): (r: int)
    requires k <= MAX_INT32
    ensures || (r == -1 && ClearIn(t, k, MAX_INT32))
            || (k <= r < MAX_INT32 && Get(t, r) && ClearIn(t, k, r))
    decreases MAX_INT32 - k
  {
    if k == MAX_INT32 then -1 else if Get(t, k) then k else NextSetOf(t, k + 1)
  }

  /**
   * The least clear index at or after k, counting MaxInt32 as clear: where
   * a run of set bits starting at k ends.
   */
  ghost function RunEnd(t: Level1, k: nat): (r: nat)
    requires k <= MAX_INT32
    ensures k <= r <= MAX_INT32 && SetIn(t, k, r)
    ensures r < MAX_INT32 ==> !Get(t, r)
    decreases MAX_INT32 - k
  {
    if k == MAX_INT32 || !Get(t, k) then k else RunEnd(t, k + 1)
  }

  /** NextSetBit answers NextSetOf on a set with no bit at MaxInt32 or above. */
  lemma NextSetAgrees(t: Level1, k: nat, r: int)
    requires k <= MAX_INT32 && NoBitsFrom(t, MAX_INT32) && IsNextSet(t, k, r)
    ensures r == NextSetOf(t, k)
  {
  }

  /** NextClearBit answers RunEnd, with -1 standing for MaxInt32. */
  lemma RunEndAgrees(t: Level1, k: nat, r: int)
    requires k < MAX_INT32 && IsNextClear(t, k, r)
    ensures RunEnd(t, k) == if r < 0 then MAX_INT32 else r
  {
  }

  /**
   * With a positive compaction count cc, the run of set bits from i is
   * written as one span when a later set bit exists and the run ends beyond
   * i + cc, computed in int32 arithmetic.
   */
  ghost predicate Compacts(t: Level1, cc: Int32, i: nat)
    requires i < MAX_INT32
  {
    cc > 0 && NextSetOf(t, i + 1) >= 0 && AddInt32(i, cc) < RunEnd(t, i)
  }

  /** The entry the text lists for the set bit i. */
  ghost function Head(t: Level1, cc: Int32, i: nat): Entry
    requires i < MAX_INT32
  {
    if Compacts(t, cc, i) then Span(i, RunEnd(t, i) - 1) else Single(i)
  }

  /** Where the search for the next entry starts after the entry for the set bit i. */
  ghost function After(t: Level1, cc: Int32, i: nat): (next: nat)
    requires i < MAX_INT32 && Get(t, i)
    ensures i < next <= MAX_INT32
  {
    if Compacts(t, cc, i) then RunEnd(t, i) else i + 1
  }

  /** The entries the text lists from the set bit i on; none when i is -1. */
  ghost function Entries(t: Level1, cc: Int32, i: int): seq<Entry>
    requires i == -1 || (0 <= i < MAX_INT32 && Get(t, i))
    decreases if i < 0 then 0 else MAX_INT32 + 1 - i
  {
    if i < 0 then [] else [Head(t, cc, i)] + Entries(t, cc, NextSetOf(t, After(t, cc, i)))
  }

  /** The character of a decimal digit. */
  function Digit(d: nat): (c: char)
    requires d < 10
    ensures '0' <= c <= '9' && c as int - '0' as int == d
  {
    (d + '0' as int) as char
  }

  /** Every character of s is a decimal digit. */
  predicate IsDigits(s: string) {
    forall k :: 0 <= k < |s| ==> '0' <= s[k] <= '9'
  }

  /** n in decimal, without leading zeros. */
  function Decimal(n: nat): (s: string)
    ensures |s| >= 1 && IsDigits(s)
    ensures s[0] == '0' ==> n == 0
    decreases n
  {
    if n < 10 then [Digit(n)] else Decimal(n / 10) + [Digit(n % 10)]
  }

  /** The number a string of decimal digits denotes. */
  function ValueOf(s: string): nat
    requires IsDigits(s)
    decreases |s|
  {
    if s == [] then 0
    else
      ValueOf(s[..|s| - 1]) * 10 + (s[|s| - 1] as int - '0' as int)
  }

  /** Reading back the decimal digits of n gives n. */
  lemma {:induction false} DecimalValue(n: nat)
    ensures ValueOf(Decimal(n)) == n
    decreases n
  {
    if n >= 10 {
      DecimalValue(n / 10);
      var s := Decimal(n);
      assert s[..|s| - 1] == Decimal(n / 10);
    }
  }

  /** The text of one entry. */
  function EntryText(e: Entry): string {
    match e
    case Single(n) => Decimal(n)
    case Span(first, last) => Decimal(first) + (".." + Decimal(last))
  }

  /** The entries' texts separated by ",". */
  function Joined(es: seq<Entry>): string
    decreases |es|
  {
    if es == [] then ""
    else if |es| == 1 then EntryText(es[0])
    else EntryText(es[0]) + "," + Joined(es[1..])
  }

  /** Joining an entry in front of others puts a "," between them when there are others. */
  lemma JoinedCons(e: Entry, rest: seq<Entry>)
    ensures Joined([e] + rest) == EntryText(e) + (if rest == [] then "" else "," + Joined(rest))
  {
    var all := [e] + rest;
    assert all[0] == e && all[1..] == rest;
    if rest == [] {
      assert |all| == 1;
      assert Joined(all) == EntryText(e);
    } else {
      assert all != [] && |all| != 1;
      assert Joined(all) == EntryText(e) + "," + Joined(rest);
      AppendAssoc(EntryText(e), ",", Joined(rest));
    }
  }

  /** The pieces of s between its commas, in order. */
  function Fields(s: string): (r: seq<string>)
    ensures |r| >= 1
    decreases |s|
  {
    if s == [] then [""]
    else if s[0] == ',' then [""] + Fields(s[1..])
    else [[s[0]] + Fields(s[1..])[0]] + Fields(s[1..])[1..]
  }

  /** The texts of the entries, one string per entry. */
  function Texts(es: seq<Entry>): (r: seq<string>)
    ensures |r| == |es|
  {
    seq(|es|, k requires 0 <= k < |es| => EntryText(es[k]))
  }

  /** No entry's text holds a comma: it is digits, with ".." in a span. */
  lemma NoCommaInEntry(e: Entry)
    ensures ',' !in EntryText(e)
  {
    match e
    case Single(n) =>
      assert IsDigits(Decimal(n));
    case Span(first, last) =>
      assert IsDigits(Decimal(first)) && IsDigits(Decimal(last));
      var s := EntryText(e);
      forall k | 0 <= k < |s| ensures s[k] != ',' {
        if k >= |Decimal(first)| + 2 {
          assert s[k] == Decimal(last)[k - |Decimal(first)| - 2];
        }
      }
  }

  /** A comma-free prefix extends the first field and leaves the others. */
  lemma {:induction false} FieldsPrefix(a: string, b: string)
    requires ',' !in a
    ensures Fields(a + b) == [a + Fields(b)[0]] + Fields(b)[1..]
    decreases |a|
  {
    if a != [] {
      var fb := Fields(b);
      var tail := a[1..];
      assert a[0] in a;
      assert ',' !in tail by {
        forall k | 0 <= k < |tail| ensures tail[k] != ',' {
          assert tail[k] == a[k + 1];
        }
      }
      FieldsPrefix(tail, b);
      var ab := a + b;
      assert ab[0] == a[0] && ab[1..] == tail + b;
      var f := Fields(tail + b);
      assert f[0] == tail + fb[0] && f[1..] == fb[1..];
      assert Fields(ab) == [[a[0]] + f[0]] + f[1..];
      assert [a[0]] + (tail + fb[0]) == a + fb[0];
    } else {
      assert a + b == b;
      assert a + Fields(b)[0] == Fields(b)[0];
    }
  }

  /** A comma after a comma-free text closes one field. */
  lemma FieldsComma(a: string, c: string)
    requires ',' !in a
    ensures Fields(a + ("," + c)) == [a] + Fields(c)
  {
    var b := "," + c;
    FieldsPrefix(a, b);
    assert b[0] == ',' && b[1..] == c;
    assert Fields(b) == [""] + Fields(c);
    assert a + "" == a;
  }

  /** A comma-free text is a single field. */
  lemma FieldsSingle(a: string)
    requires ',' !in a
    ensures Fields(a) == [a]
  {
    FieldsPrefix(a, "");
    assert a + "" == a;
  }

  /** Splitting the joined entries at their commas gives back each entry's text. */
  lemma {:induction false} JoinedFields(es: seq<Entry>)
    requires es != []
    ensures Fields(Joined(es)) == Texts(es)
    decreases |es|
  {
    var head := EntryText(es[0]);
    NoCommaInEntry(es[0]);
    if |es| == 1 {
      FieldsSingle(head);
      assert Joined(es) == head;
    } else {
      var rest := Joined(es[1..]);
      JoinedFields(es[1..]);
      assert Joined(es) == head + "," + rest;
      AppendAssoc(head, ",", rest);
      FieldsComma(head, rest);
      TextsCons(es);
    }
  }

  lemma TextsCons(es: seq<Entry>)
    requires es != []
    ensures Texts(es) == [EntryText(es[0])] + Texts(es[1..])
  {
  }

  /**
   * The rendered text is "{", the entries, "}", and the entries are
   * separated by single commas: cutting the text between the braces at its
   * commas gives each entry's text in order.
   */
  lemma RenderFields(t: Level1, cc: Int32)
    ensures |Render(t, cc)| >= 2 && Render(t, cc)[0] == '{' && Render(t, cc)[|Render(t, cc)| - 1] == '}'
    ensures Entries(t, cc, NextSetOf(t, 0)) != [] ==>
              Fields(Render(t, cc)[1..|Render(t, cc)| - 1]) == Texts(Entries(t, cc, NextSetOf(t, 0)))
  {
    var es := Entries(t, cc, NextSetOf(t, 0));
    var r := Render(t, cc);
    assert r == "{" + Joined(es) + "}";
    assert r[1..|r| - 1] == Joined(es);
    if es != [] {
      JoinedFields(es);
    }
  }

  /** The text still to come when the listing has reached the set bit i (or the end, at -1). */
  ghost function Pending(t: Level1, cc: Int32, i: int): string
    requires i == -1 || (0 <= i < MAX_INT32 && Get(t, i))
  {
    Joined(Entries(t, cc, i)) + "}"
  }

  /** The text of the set t with compaction count cc. */
  ghost function Render(t: Level1, cc: Int32): string {
    "{" + Pending(t, cc, NextSetOf(t, 0))
  }

  /** At the end of the listing only the closing brace is left. */
  lemma PendingEnd(t: Level1, cc: Int32)
    ensures Pending(t, cc, -1) == "}"
  {
    assert Entries(t, cc, -1) == [];
  }

  lemma AppendAssoc(a: string, b: string, c: string)
    ensures (a + b) + c == a + (b + c)
  {
  }

  /**
   * Writing the entry for the set bit i, then a "," when the listing goes on
   * at j, takes the text still to come from the one at i to the one at j.
   */
  lemma Resume(p: string, t: Level1, cc: Int32, i: nat, j: int, q: string)
    requires i < MAX_INT32 && Get(t, i) && j == NextSetOf(t, After(t, cc, i))
    requires q == if j >= 0 then EntryText(Head(t, cc, i)) + "," else EntryText(Head(t, cc, i))
    ensures (p + q) + Pending(t, cc, j) == p + Pending(t, cc, i)
  {
    var e := Head(t, cc, i);
    var rest := Entries(t, cc, j);
    assert Entries(t, cc, i) == [e] + rest;
    JoinedCons(e, rest);
    if j >= 0 {
      assert Pending(t, cc, i) == (EntryText(e) + ("," + Joined(rest))) + "}";
    } else {
      assert rest == [];
      assert Pending(t, cc, i) == (EntryText(e) + "") + "}";
    }
  }

  /** The empty set prints as "{}". */
  lemma RenderEmpty(t: Level1, cc: Int32)
    requires NoBits(t)
    ensures Render(t, cc) == "{}"
  {
  }

  /** The index k lies in entry e. */
  predicate Covers(e: Entry, k: int) {
    match e
    case Single(n) => k == n
    case Span(first, last) => first <= k <= last
  }

  function FirstOf(e: Entry): nat {
    match e
    case Single(n) => n
    case Span(first, _) => first
  }

  function LastOf(e: Entry): nat {
    match e
    case Single(n) => n
    case Span(_, last) => last
  }

  /** Each entry ends before the next begins. */
  ghost predicate Ascending(es: seq<Entry>) {
    && (forall m :: 0 <= m < |es| ==> FirstOf(es[m]) <= LastOf(es[m]))
    && (forall m, n :: 0 <= m < n < |es| ==> LastOf(es[m]) < FirstOf(es[n]))
  }

  /**
   * The entries listed from the first set bit at or after from cover
   * exactly the set bits at or after from.
   */
  lemma {:induction false} EntriesExact(t: Level1, cc: Int32, from: nat, k: nat)
    requires from <= MAX_INT32 && NoBitsFrom(t, MAX_INT32)
    ensures (exists e :: e in Entries(t, cc, NextSetOf(t, from)) && Covers(e, k)) <==> (from <= k && Get(t, k))
    decreases MAX_INT32 - from
  {
    var i := NextSetOf(t, from);
    if i >= 0 {
      var next := After(t, cc, i);
      var es := Entries(t, cc, NextSetOf(t, next));
      assert Entries(t, cc, i) == [Head(t, cc, i)] + es;
      HeadCovers(t, cc, i, k);
      EntriesExact(t, cc, next, k);
      if from <= k && Get(t, k) && next <= k {
        var e :| e in es && Covers(e, k);
        assert e in Entries(t, cc, i);
      }
    }
  }

  /** The entry for the set bit i covers exactly the indices from i up to where the listing resumes. */
  lemma HeadCovers(t: Level1, cc: Int32, i: nat, k: nat)
    requires i < MAX_INT32 && Get(t, i)
    ensures Covers(Head(t, cc, i), k) <==> i <= k < After(t, cc, i)
    ensures i <= k < After(t, cc, i) ==> Get(t, k)
  {
  }

  /** The entries listed from the first set bit at or after from are in ascending order. */
  lemma {:induction false} EntriesAscending(t: Level1, cc: Int32, from: nat)
    requires from <= MAX_INT32
    ensures Ascending(Entries(t, cc, NextSetOf(t, from)))
    ensures forall e :: e in Entries(t, cc, NextSetOf(t, from)) ==> from <= FirstOf(e)
    decreases MAX_INT32 - from
  {
    var i := NextSetOf(t, from);
    if i >= 0 {
      var next := After(t, cc, i);
      var head := Head(t, cc, i);
      assert FirstOf(head) == i && i <= LastOf(head) < next;
      var es := Entries(t, cc, NextSetOf(t, next));
      EntriesAscending(t, cc, next);
      AscendingCons(head, es, next);
    }
  }

  /** An entry ending before every entry of an ascending list heads an ascending list. */
  lemma AscendingCons(head: Entry, es: seq<Entry>, next: nat)
    requires FirstOf(head) <= LastOf(head) < next && Ascending(es)
    requires forall e :: e in es ==> next <= FirstOf(e)
    ensures Ascending([head] + es)
  {
    var all := [head] + es;
    forall m, n | 0 <= m < n < |all|
      ensures LastOf(all[m]) < FirstOf(all[n])
    {
      assert all[n] == es[n - 1];
      assert all[n] in es;
      if m > 0 {
        assert all[m] == es[m - 1];
      }
    }
    forall m | 0 <= m < |all|
      ensures FirstOf(all[m]) <= LastOf(all[m])
    {
      if m > 0 {
        assert all[m] == es[m - 1];
      }
    }
  }

  /**
   * What an entry says about the set: a lone index is set and, when the
   * compaction count cc is positive and i + cc does not overflow, the run
   * from it is no longer than cc; a span occurs only for a positive cc, is
   * a maximal run of set bits, and, without overflow, is longer than cc.
   */
  ghost predicate Describes(t: Level1, cc: Int32, e: Entry) {
    match e
    case Single(n) =>
      && n < MAX_INT32
      && Get(t, n)
      && (0 < cc && n + cc <= MAX_INT32 ==> RunEnd(t, n) <= n + cc)
    case Span(first, last) =>
      && 0 < cc
      && SetIn(t, first, last + 1)
      && (last + 1 < MAX_INT32 ==> !Get(t, last + 1))
      && (first + cc <= MAX_INT32 ==> first + cc <= last)
  }

  /** The entry for a set bit describes the set. */
  lemma HeadDescribes(t: Level1, cc: Int32, i: nat)
    requires i < MAX_INT32 && Get(t, i)
    ensures Describes(t, cc, Head(t, cc, i))
  {
  }

  /** Every entry listed describes the set. */
  lemma {:induction false} EntriesRuns(t: Level1, cc: Int32, from: nat)
    requires from <= MAX_INT32
    ensures forall e :: e in Entries(t, cc, NextSetOf(t, from)) ==> Describes(t, cc, e)
    decreases MAX_INT32 - from
  {
    var i := NextSetOf(t, from);
    if i >= 0 {
      var next := After(t, cc, i);
      assert Entries(t, cc, i) == [Head(t, cc, i)] + Entries(t, cc, NextSetOf(t, next));
      HeadDescribes(t, cc, i);
      EntriesRuns(t, cc, next);
    }
  }

  /**
   * The loop of String over the level-1 array t with compaction count cc:
   * write each set bit from the first; with a positive cc, stop at the last
   * set bit, and write a run that ends beyond i + cc (int32 arithmetic) as
   * "i..last", going on at the first set bit after it.
   */
  method Text(t: Level1, cc: Int32) returns (s: string)
    requires 1 <= |t| <= MAX_LENGTH1 && !Get(t, MAX_INT32)
    ensures s == Render(t, cc)
  {
    CapacityBound(t);
    var p := "{";
    var i := NextSetIn(t, 0);
    NextSetAgrees(t, 0, i);
    while i >= 0
      invariant i == -1 || (0 <= i < MAX_INT32 && Get(t, i))
      invariant p + Pending(t, cc, i) == Render(t, cc)
      decreases if i < 0 then 0 else MAX_INT32 + 1 - i
    {
      ghost var p0 := p;
      p := p + Decimal(i);
      ghost var q := Decimal(i);
      var j := NextSetIn(t, i + 1);
      NextSetAgrees(t, i + 1, j);
      if cc > 0 {
        if j < 0 {
          assert !Compacts(t, cc, i);
          Resume(p0, t, cc, i, j, q);
          break;
        }
        var last := NextClearIn(t, i);
        RunEndAgrees(t, i, last);
        if last < 0 {
          last := MAX_INT32;
        }
        if AddInt32(i, cc) < last {
          AppendAssoc(p0, q, ".." + Decimal(last - 1));
          p := p + (".." + Decimal(last - 1));
          q := q + (".." + Decimal(last - 1));
          j := NextSetIn(t, last);
          NextSetAgrees(t, last, j);
          assert Compacts(t, cc, i);
        } else {
          assert !Compacts(t, cc, i);
        }
      } else {
        assert !Compacts(t, cc, i);
      }
      assert q == EntryText(Head(t, cc, i)) && j == NextSetOf(t, After(t, cc, i));
      if j >= 0 {
        AppendAssoc(p0, q, ",");
        p := p + ",";
        q := q + ",";
      }
      Resume(p0, t, cc, i, j, q);
      i := j;
    }
    PendingEnd(t, cc);
    s := p + "}";
  }
}
