/** The shared vocabulary of the map/reduce library: the key/value record,
    the names of intermediate and result files, and the sort interface of a
    slice of records, whose comparator orders keys by their decimal value. */
module Common {

  /** The record exchanged between the map and reduce functions. */
  datatype KeyValue = KeyValue(Key: string, Value: string)

  datatype Option<T> = None | Some(value: T)

  // ---------------------------------------------------------------------
  // Decimal numerals (the parts of strconv.Itoa and strconv.Atoi in use)
  // ---------------------------------------------------------------------

  predicate IsDigit(c: char) { '0' <= c <= '9' }

  predicate AllDigits(s: string) { forall i :: 0 <= i < |s| ==> IsDigit(s[i]) }

  function DigitValue(c: char): nat
    requires IsDigit(c)
  {
    (c as int) - ('0' as int)
  }

  function DigitChar(d: nat): (c: char)
    requires d < 10
    ensures IsDigit(c) && DigitValue(c) == d
  {
    ('0' as int + d) as char
  }

  /** The value of a run of decimal digits, most significant first (0 for none). */
  function DigitsValue(s: string): nat
    requires AllDigits(s)
  {
    if s == [] then 0 else 10 * DigitsValue(s[..|s| - 1]) + DigitValue(s[|s| - 1])
  }

  /** The shortest decimal numeral of n: what strconv.Itoa gives for n >= 0. */
  function NatDigits(n: nat): (s: string)
    ensures |s| > 0 && AllDigits(s)
    ensures DigitsValue(s) == n
    decreases n
  {
    if n < 10 then [DigitChar(n)]
    else
      var s := NatDigits(n / 10) + [DigitChar(n % 10)];
      assert s[..|s| - 1] == NatDigits(n / 10);
      s
  }

  /** strconv.Itoa: a minus sign for negative numbers, then the digits. */
  function Itoa(n: int): string
  {
    if n < 0 then "-" + NatDigits(-n) else NatDigits(n)
  }

  /** strconv.Atoi on mathematical integers: an optional sign followed by at
      least one decimal digit and nothing else; anything else is a syntax
      error (None). */
  function Atoi(s: string): Option<int>
  {
    if |s| > 0 && (s[0] == '-' || s[0] == '+') then
      if |s| > 1 && AllDigits(s[1..]) then
        var v: int := DigitsValue(s[1..]);
        Some(if s[0] == '-' then -v else v)
      else None
    else if |s| > 0 && AllDigits(s) then Some(DigitsValue(s))
    else None
  }

  /** The numeric projection the comparator uses: the value strconv.Atoi
      returns with its error discarded, so a key that fails to parse is 0. */
  function KeyNum(key: string): int
  {
    match Atoi(key)
    case Some(n) => n
    case None => 0
  }

  /** Parsing what Itoa prints gives the number back. */
  lemma KeyNumItoa(n: int)
    ensures Atoi(Itoa(n)) == Some(n)
    ensures KeyNum(Itoa(n)) == n
  {
    if n < 0 {
      var s := Itoa(n);
      assert s[1..] == NatDigits(-n);
    } else {
      var s := NatDigits(n);
      assert s[0] != '-' && s[0] != '+' by { assert IsDigit(s[0]); }
    }
  }

  lemma ItoaInjective(a: int, b: int)
    requires Itoa(a) == Itoa(b)
    ensures a == b
  {
    KeyNumItoa(a);
    KeyNumItoa(b);
  }

  /** The projection is not injective: different numerals of one number,
      and every key that is not a numeral, share a value. */
  lemma KeyNumCollisions()
    ensures KeyNum("1") == KeyNum("01") == KeyNum("+1") == 1
    ensures KeyNum("a") == KeyNum("") == KeyNum("-") == KeyNum("0") == 0
    ensures KeyNum("-12") == -12
  {
    assert "01"[..1] == "0";
    assert "+1"[1..] == "1";
    assert "-12"[1..] == "12" && "12"[..1] == "1";
  }

  // ---------------------------------------------------------------------
  // File names
  // ---------------------------------------------------------------------

  /** Name of the intermediate file that map task mapTask writes for reduce
      task reduceTask. */
  function ReduceName(jobName: string, mapTask: int, reduceTask: int): string
  {
    "mrtmp." + jobName + "-" + Itoa(mapTask) + "-" + Itoa(reduceTask)
  }

  /** Name of the output file of reduce task reduceTask. */
  function MergeName(jobName: string, reduceTask: int): string
  {
    "mrtmp." + jobName + "-res-" + Itoa(reduceTask)
  }

  /** Position of the first '-' in s, or |s| when there is none. */
  function FirstDash(s: string): (k: nat)
    ensures k <= |s|
  {
    if s == [] || s[0] == '-' then 0 else 1 + FirstDash(s[1..])
  }

  lemma {:induction false} FirstDashAfterDigits(a: string, b: string)
    requires AllDigits(a)
    ensures FirstDash(a + "-" + b) == |a|
  {
    if a != [] {
      assert (a + "-" + b)[1..] == a[1..] + "-" + b;
      FirstDashAfterDigits(a[1..], b);
    }
  }

  /** name is the prefix p followed by text that splits at its first dash
      into numerals of m and r. */
  predicate SplitsInto(name: string, p: string, m: int, r: int)
  {
    |p| <= |name| && name[..|p|] == p &&
    var t := name[|p|..];
    FirstDash(t) < |t| && Atoi(t[..FirstDash(t)]) == Some(m) && Atoi(t[FirstDash(t) + 1..]) == Some(r)
  }

  /** An intermediate file name can be read back: after the job prefix it
      splits at its first dash into the numerals of the two task numbers. */
  lemma ReduceNameParses(jobName: string, m: nat, r: int)
    ensures SplitsInto(ReduceName(jobName, m, r), "mrtmp." + jobName + "-", m, r)
  {
    var p := "mrtmp." + jobName + "-";
    var t := Itoa(m) + "-" + Itoa(r);
    ReduceNameSplits(jobName, m, r);
    assert (p + t)[..|p|] == p && (p + t)[|p|..] == t;
    FirstDashAfterDigits(Itoa(m), Itoa(r));
    assert t[..|Itoa(m)|] == Itoa(m);
    assert t[|Itoa(m)| + 1..] == Itoa(r);
    KeyNumItoa(m);
    KeyNumItoa(r);
  }

  /** An output file name can be read back: after "mrtmp.", the job name
      and "-res-" comes the numeral of the reduce task. */
  lemma MergeNameParses(jobName: string, r: int)
    ensures var p := "mrtmp." + jobName + "-res-";
      |p| < |MergeName(jobName, r)| && MergeName(jobName, r)[..|p|] == p &&
      Atoi(MergeName(jobName, r)[|p|..]) == Some(r)
  {
    var p := "mrtmp." + jobName + "-res-";
    assert MergeName(jobName, r) == p + Itoa(r);
    assert (p + Itoa(r))[..|p|] == p && (p + Itoa(r))[|p|..] == Itoa(r);
    KeyNumItoa(r);
  }

  /** "digits-rest" splits in one way only. */
  lemma SplitAtDash(a1: string, b1: string, a2: string, b2: string)
    requires AllDigits(a1) && AllDigits(a2)
    requires a1 + "-" + b1 == a2 + "-" + b2
    ensures a1 == a2 && b1 == b2
  {
    var s := a1 + "-" + b1;
    FirstDashAfterDigits(a1, b1);
    FirstDashAfterDigits(a2, b2);
    assert a1 == s[..|a1|] && b1 == s[|a1| + 1..];
    assert a2 == s[..|a2|] && b2 == s[|a2| + 1..];
  }

  lemma ReduceNameSplits(jobName: string, m: int, r: int)
    ensures ReduceName(jobName, m, r) == ("mrtmp." + jobName + "-") + (Itoa(m) + "-" + Itoa(r))
  {
  }

  /** Different (map task, reduce task) pairs never share an intermediate
      file name within one job. */
  lemma ReduceNameInjective(jobName: string, m1: nat, r1: int, m2: nat, r2: int)
    requires ReduceName(jobName, m1, r1) == ReduceName(jobName, m2, r2)
    ensures m1 == m2 && r1 == r2
  {
    var p := "mrtmp." + jobName + "-";
    var t1 := Itoa(m1) + "-" + Itoa(r1);
    var t2 := Itoa(m2) + "-" + Itoa(r2);
    ReduceNameSplits(jobName, m1, r1);
    ReduceNameSplits(jobName, m2, r2);
    assert t1 == (p + t1)[|p|..];
    assert t2 == (p + t2)[|p|..];
    SplitAtDash(Itoa(m1), Itoa(r1), Itoa(m2), Itoa(r2));
    ItoaInjective(m1, m2);
    ItoaInjective(r1, r2);
  }

  /** Different reduce tasks of one job have different output files. */
  lemma MergeNameInjective(jobName: string, r1: int, r2: int)
    requires MergeName(jobName, r1) == MergeName(jobName, r2)
    ensures r1 == r2
  {
    var p := "mrtmp." + jobName + "-res-";
    assert Itoa(r1) == MergeName(jobName, r1)[|p|..];
    assert Itoa(r2) == MergeName(jobName, r2)[|p|..];
    ItoaInjective(r1, r2);
  }

  /** An intermediate file (of a map task numbered from 0) is never taken for
      the output file of a reduce task of the same job. */
  lemma ReduceNameNotMergeName(jobName: string, m: nat, r: int, r': int)
    ensures ReduceName(jobName, m, r) != MergeName(jobName, r')
  {
    var p := "mrtmp." + jobName + "-";
    assert ReduceName(jobName, m, r)[|p|] == Itoa(m)[0];
    assert MergeName(jobName, r')[|p|] == 'r';
    assert IsDigit(Itoa(m)[0]);
  }

  // ---------------------------------------------------------------------
  // KeyValues: the sort interface of a slice of records
  // ---------------------------------------------------------------------

  /** Len of the slice. */
  function Len(kv: array<KeyValue>): (n: nat)
    reads kv
    ensures n == |kv[..]|
  {
    kv.Length
  }

  /** Less compares the numeric values of the two keys, so two records
      with the same key are never ordered, and neither are two keys that both
      fail to parse. */
  predicate Less(kv: array<KeyValue>, i: int, j: int)
    reads kv
    requires 0 <= i < kv.Length && 0 <= j < kv.Length
  {
    KeyNum(kv[i].Key) < KeyNum(kv[j].Key)
  }

  /** Less is a strict weak order: irreflexive, transitive, and "neither is
      less" is transitive too, which is what sort.Sort requires of it. */
  lemma LessIsStrictWeakOrder(kv: array<KeyValue>)
    ensures forall i :: 0 <= i < kv.Length ==> !Less(kv, i, i)
    ensures forall i, j, k ::
      (0 <= i < kv.Length && 0 <= j < kv.Length && 0 <= k < kv.Length &&
       Less(kv, i, j) && Less(kv, j, k)) ==> Less(kv, i, k)
    ensures forall i, j, k ::
      (0 <= i < kv.Length && 0 <= j < kv.Length && 0 <= k < kv.Length &&
       !Less(kv, i, j) && !Less(kv, j, i) && !Less(kv, j, k) && !Less(kv, k, j)) ==>
      !Less(kv, i, k) && !Less(kv, k, i)
  {
  }

  /** A key that is not a numeral compares as 0. */
  lemma LessOfMalformedKey(kv: array<KeyValue>, i: int, j: int)
    requires 0 <= i < kv.Length && 0 <= j < kv.Length
    requires Atoi(kv[i].Key) == None
    ensures Less(kv, i, j) <==> 0 < KeyNum(kv[j].Key)
    ensures Less(kv, j, i) <==> KeyNum(kv[j].Key) < 0
  {
  }

  /** Swap exchanges two positions of the slice in place. */
  method Swap(kv: array<KeyValue>, i: int, j: int)
    requires 0 <= i < kv.Length && 0 <= j < kv.Length
    modifies kv
    ensures kv[..] == old(kv[..])[i := old(kv[j])][j := old(kv[i])]
    ensures multiset(kv[..]) == multiset(old(kv[..]))
  {
    kv[i], kv[j] := kv[j], kv[i];
  }
}
