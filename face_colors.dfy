/** Find Colors: the list of distinct face colours of a mesh, in order of
    first appearance, labelled Col_1, Col_2, ...
 */
module FaceColors {
  import opened Colors

  /** The face averages, face by face. */
  function FaceAverages(faces: seq<Face>): (avgs: seq<Rgb>)
    requires WellFormed(faces)
    ensures |avgs| == |faces|
  {
    seq(|faces|, i requires 0 <= i < |faces| => Average(faces[i]))
  }

  /** First-occurrence deduplication: s with every repeat of an earlier
      element dropped. */
  function Distinct<T(==)>(s: seq<T>): (d: seq<T>)
    ensures |d| <= |s|
  {
    if |s| == 0 then []
    else
      var d := Distinct(s[..|s| - 1]);
      if s[|s| - 1] in d then d else d + [s[|s| - 1]]
  }

  predicate NoDuplicates<T(==)>(s: seq<T>)
  {
    forall i, j :: 0 <= i < j < |s| ==> s[i] != s[j]
  }

  /** The position of the first occurrence of x in s. */
  function FirstIndex<T(==)>(s: seq<T>, x: T): (k: nat)
    requires x in s
    ensures k < |s| && s[k] == x
    ensures forall j :: 0 <= j < k ==> s[j] != x
  {
    if s[0] == x then 0 else 1 + FirstIndex(s[1..], x)
  }

  /** Distinct keeps exactly the elements of s. */
  lemma {:induction false} DistinctSameElements<T>(s: seq<T>)
    ensures forall x :: x in Distinct(s) ==> x in s
    ensures forall x :: x in s ==> x in Distinct(s)
  {
    if |s| > 0 {
      var init := s[..|s| - 1];
      DistinctSameElements(init);
      assert s == init + [s[|s| - 1]];
    }
  }

  /** No element appears twice in Distinct(s). */
  lemma {:induction false} DistinctNoDuplicates<T>(s: seq<T>)
    ensures NoDuplicates(Distinct(s))
  {
    if |s| > 0 {
      DistinctNoDuplicates(s[..|s| - 1]);
    }
  }

  lemma {:induction false} NoDuplicatesCardinality<T>(s: seq<T>)
    requires NoDuplicates(s)
    ensures |set x | x in s| == |s|
  {
    if |s| > 0 {
      var init := s[..|s| - 1];
      var last := s[|s| - 1];
      NoDuplicatesCardinality(init);
      assert s == init + [last];
      assert (set x | x in s) == (set x | x in init) + {last};
      assert last !in init;
    }
  }

  /** The number of entries of Distinct(s) is the number of distinct
      elements of s. */
  lemma DistinctCardinality<T>(s: seq<T>)
    ensures |Distinct(s)| == |set x | x in s|
  {
    DistinctNoDuplicates(s);
    NoDuplicatesCardinality(Distinct(s));
    DistinctSameElements(s);
    assert (set x | x in Distinct(s)) == (set x | x in s);
  }

  lemma {:induction false} FirstIndexPrefix<T>(s: seq<T>, k: nat, x: T)
    requires k <= |s| && x in s[..k]
    ensures x in s && FirstIndex(s, x) == FirstIndex(s[..k], x)
  {
    if s[0] != x {
      assert s[1..][..k - 1] == s[..k][1..];
      FirstIndexPrefix(s[1..], k - 1, x);
    }
  }

  /** Distinct(s) lists its elements in the order of their first occurrence
      in s. */
  lemma {:induction false} DistinctFirstOccurrenceOrder<T>(s: seq<T>)
    ensures forall x :: x in Distinct(s) ==> x in s
    ensures forall i, j :: 0 <= i < j < |Distinct(s)| ==>
              FirstIndex(s, Distinct(s)[i]) < FirstIndex(s, Distinct(s)[j])
  {
    DistinctSameElements(s);
    if |s| > 0 {
      var n := |s| - 1;
      var init, last := s[..n], s[n];
      var d := Distinct(init);
      DistinctFirstOccurrenceOrder(init);
      DistinctSameElements(init);
      assert init == s[..n];
      forall x | x in d
        ensures FirstIndex(s, x) == FirstIndex(init, x) < n
      {
        FirstIndexPrefix(s, n, x);
      }
      if last in d {
        assert Distinct(s) == d;
      } else {
        var e := d + [last];
        assert Distinct(s) == e;
        assert FirstIndex(s, last) == n;
        forall i, j | 0 <= i < j < |e|
          ensures FirstIndex(s, e[i]) < FirstIndex(s, e[j])
        {
          assert e[i] == d[i];
          if j < |d| {
            assert e[j] == d[j];
          }
        }
      }
    }
  }

  /** The label of the k-th colour found: "Col_" followed by k in decimal. */
  function Label(k: nat): string
  {
    "Col_" + Decimal(k)
  }

  /** A label is "Col_" followed by decimal digits, with no leading zero for
      the positions 1, 2, ... that Find Colors numbers from. */
  lemma LabelShape(k: nat)
    ensures |Label(k)| > 4 && Label(k)[..4] == "Col_"
    ensures forall i :: 4 <= i < |Label(k)| ==> IsDigit(Label(k)[i])
    ensures Label(k)[4] == '0' <==> k == 0
    ensures DigitsValue(Label(k)[4..]) == k
  {
    assert Label(k)[4..] == Decimal(k);
    DecimalValue(k);
  }

  predicate IsDigit(c: char)
  {
    '0' <= c <= '9'
  }

  /** n in decimal, without leading zeros. */
  function Decimal(n: nat): (s: string)
    ensures |s| > 0
    ensures forall i :: 0 <= i < |s| ==> IsDigit(s[i])
    ensures s[0] == '0' <==> n == 0
  {
    if n < 10 then [DigitChar(n)] else Decimal(n / 10) + [DigitChar(n % 10)]
  }

  function DigitChar(d: nat): char
    requires d < 10
  {
    "0123456789"[d]
  }

  /** The number a string of decimal digits denotes, most significant digit
      first. */
  function DigitsValue(s: string): nat
    requires forall i :: 0 <= i < |s| ==> IsDigit(s[i])
  {
    if |s| == 0 then 0
    else
      assert IsDigit(s[|s| - 1]);
      DigitsValue(s[..|s| - 1]) * 10 + (s[|s| - 1] as int - '0' as int)
  }

  /** Decimal(n) denotes n. */
  lemma {:induction false} DecimalValue(n: nat)
    ensures DigitsValue(Decimal(n)) == n
  {
    var s := Decimal(n);
    if n >= 10 {
      DecimalValue(n / 10);
      assert s[..|s| - 1] == Decimal(n / 10);
      assert s[|s| - 1] == DigitChar(n % 10);
    } else {
      assert s[..0] == [];
    }
  }

  lemma {:induction false} DecimalInjective(m: nat, n: nat)
    requires Decimal(m) == Decimal(n)
    ensures m == n
  {
    var sm, sn := Decimal(m), Decimal(n);
    assert sm[|sm| - 1] == sn[|sn| - 1];
    if m >= 10 && n >= 10 {
      assert Decimal(m / 10) == sm[..|sm| - 1] == sn[..|sn| - 1] == Decimal(n / 10);
      DecimalInjective(m / 10, n / 10);
    }
  }

  /** Different positions in the colour list get different labels. */
  lemma LabelInjective(j: nat, k: nat)
    requires Label(j) == Label(k)
    ensures j == k
  {
    assert Decimal(j) == Label(j)[4..] == Label(k)[4..] == Decimal(k);
    DecimalInjective(j, k);
  }

  /** An entry of the Face Colors enumeration: identifier (the colour itself,
      whose text the source uses), display name (the label) and empty description. */
  datatype EnumItem = EnumItem(identifier: Rgb, name: string, description: string)

  /** An entry of the colour preview list: name and colour. */
  datatype Preview = Preview(name: string, color: Rgb)

  /** One more element extends Distinct by that element exactly when it is
      new. */
  lemma DistinctStep<T>(s: seq<T>, i: nat)
    requires i < |s|
    ensures Distinct(s[..i + 1]) ==
            if s[i] in Distinct(s[..i]) then Distinct(s[..i]) else Distinct(s[..i]) + [s[i]]
  {
    assert s[..i + 1][..i] == s[..i];
  }

  /** The enumeration entries for a list of colours: the k-th (from 0) is
      labelled Col_(k+1). */
  function Enumerate(cs: seq<Rgb>): (items: seq<EnumItem>)
    ensures |items| == |cs|
  {
    seq(|cs|, k requires 0 <= k < |cs| => EnumItem(cs[k], Label(k + 1), ""))
  }

  /** The preview entries for a list of enumeration entries. */
  function PreviewsOf(items: seq<EnumItem>): (ps: seq<Preview>)
    ensures |ps| == |items|
  {
    seq(|items|, k requires 0 <= k < |items| => Preview(items[k].name, items[k].identifier))
  }

  /** Different entries of the enumeration carry different labels. */
  lemma EnumerateLabelsDistinct(cs: seq<Rgb>)
    ensures forall j, k :: 0 <= j < k < |cs| ==> Enumerate(cs)[j].name != Enumerate(cs)[k].name
  {
    forall j, k | 0 <= j < k < |cs| ensures Enumerate(cs)[j].name != Enumerate(cs)[k].name {
      if Label(j + 1) == Label(k + 1) {
        LabelInjective(j + 1, k + 1);
      }
    }
  }

  lemma EnumerateAppend(cs: seq<Rgb>, c: Rgb)
    ensures Enumerate(cs + [c]) == Enumerate(cs) + [EnumItem(c, Label(|cs| + 1), "")]
  {
  }

  lemma PreviewsAppend(items: seq<EnumItem>, item: EnumItem)
    ensures PreviewsOf(items + [item]) == PreviewsOf(items) + [Preview(item.name, item.identifier)]
  {
  }

  /** The discovery loop of Find Colors: walk the faces, skip an average
      already seen, otherwise record it under the next label. */
  method CollectFaceColors(faces: seq<Face>) returns (items: seq<EnumItem>, previews: seq<Preview>)
    requires WellFormed(faces)
    ensures items == Enumerate(Distinct(FaceAverages(faces)))
    ensures previews == PreviewsOf(items)
  {
    ghost var avgs := FaceAverages(faces);
    ghost var found: seq<Rgb> := [];
    var seen: set<Rgb> := {};
    items, previews := [], [];
    var idx := 1;
    for i := 0 to |faces|
      invariant found == Distinct(avgs[..i])
      invariant idx == |found| + 1
      invariant forall x :: x in seen <==> x in found
      invariant items == Enumerate(found)
      invariant previews == PreviewsOf(items)
    {
      DistinctStep(avgs, i);
      var avg := Average(faces[i]);
      if avg in seen {
        continue;
      }
      EnumerateAppend(found, avg);
      seen := seen + {avg};
      found := found + [avg];
      var name := Label(idx);
      PreviewsAppend(items, EnumItem(avg, name, ""));
      items := items + [EnumItem(avg, name, "")];
      previews := previews + [Preview(name, avg)];
      idx := idx + 1;
    }
    assert avgs[..|faces|] == avgs;
  }
}
