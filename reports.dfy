/** The two report computations of backend/src/routes/rapor.ts: the yearly
    leave summary of the active employees (`/yillik-izin-ozet`) and the
    monthly pivot of leave days by leave type (`/pivot`). The employee table
    and the leave records the handlers query are parameters here; the HTTP
    plumbing is not modelled. */
module Reports {
  import opened Calendar
  import opened Wrappers
  import opened LeaveCalculation
  import OvertimeCalculation

  // ---------------------------------------------------------------------------
  // Yearly leave summary

  /** One row of the yearly summary: the employee's identity columns followed
      by the fields of the leave balance spread into the row. */
  datatype OzetSatiri = OzetSatiri(
    id: int,
    sicilNo: string,
    adSoyad: string,
    birim: string,
    hizmetSuresi: int,
    toplam: int,
    kullanilan: real,
    kalan: real)

  /** String order by code point, the order `orderBy: { sicilNo: 'asc' }` sorts by. */
  predicate StrLe(a: string, b: string) {
    if a == [] then true
    else if b == [] then false
    else if a[0] != b[0] then a[0] < b[0]
    else StrLe(a[1..], b[1..])
  }

  lemma {:induction false} StrLeTotal(a: string, b: string)
    ensures StrLe(a, b) || StrLe(b, a)
  {
    if a != [] && b != [] && a[0] == b[0] {
      StrLeTotal(a[1..], b[1..]);
    }
  }

  lemma {:induction false} StrLeTransitive(a: string, b: string, c: string)
    requires StrLe(a, b) && StrLe(b, c)
    ensures StrLe(a, c)
  {
    if a != [] && b != [] && c != [] && a[0] == b[0] && b[0] == c[0] {
      StrLeTransitive(a[1..], b[1..], c[1..]);
    }
  }

  predicate SortedBySicilNo(ps: seq<Personel>) {
    forall i, j :: 0 <= i < j < |ps| ==> StrLe(ps[i].sicilNo, ps[j].sicilNo)
  }

  /** The active employees, in table order (`where: { aktif: true }`). */
  function ActiveEmployees(personeller: seq<Personel>): (r: seq<Personel>)
    ensures forall p :: p in r <==> p in personeller && p.aktif
    ensures multiset(r) <= multiset(personeller)
  {
    if personeller == [] then []
    else
      var rest := ActiveEmployees(personeller[1..]);
      assert personeller == [personeller[0]] + personeller[1..];
      if personeller[0].aktif then [personeller[0]] + rest else rest
  }

  /** An employee that comes no later than any of a sorted list may go in front of it. */
  lemma PrependSorted(p: Personel, ps: seq<Personel>)
    requires SortedBySicilNo(ps)
    requires forall q :: q in ps ==> StrLe(p.sicilNo, q.sicilNo)
    ensures SortedBySicilNo([p] + ps)
  {
    forall i, j | 0 <= i < j < |[p] + ps|
      ensures StrLe(([p] + ps)[i].sicilNo, ([p] + ps)[j].sicilNo)
    {
      if i > 0 {
        assert ([p] + ps)[i] == ps[i - 1];
      }
      assert ([p] + ps)[j] == ps[j - 1];
      assert ps[j - 1] in ps;
    }
  }

  /** Places an employee into a list sorted by registry number. */
  function InsertBySicilNo(p: Personel, ps: seq<Personel>): (r: seq<Personel>)
    requires SortedBySicilNo(ps)
    ensures SortedBySicilNo(r)
    ensures multiset(r) == multiset(ps) + multiset{p}
  {
    if ps == [] then [p]
    else if StrLe(p.sicilNo, ps[0].sicilNo) then
      forall q | q in ps
        ensures StrLe(p.sicilNo, q.sicilNo)
      {
        var j :| 0 <= j < |ps| && ps[j] == q;
        if j > 0 {
          StrLeTransitive(p.sicilNo, ps[0].sicilNo, ps[j].sicilNo);
        }
      }
      PrependSorted(p, ps);
      assert ps == [ps[0]] + ps[1..];
      [p] + ps
    else
      StrLeTotal(p.sicilNo, ps[0].sicilNo);
      var rest := InsertBySicilNo(p, ps[1..]);
      assert ps == [ps[0]] + ps[1..];
      forall q | q in rest
        ensures StrLe(ps[0].sicilNo, q.sicilNo)
      {
        assert q in multiset(ps[1..]) + multiset{p};
        if q != p {
          var j :| 0 <= j < |ps[1..]| && ps[1..][j] == q;
          assert ps[j + 1] == q;
        }
      }
      PrependSorted(ps[0], rest);
      [ps[0]] + rest
  }

  /** The rows of a query ordered by sicilNo ascending: the same employees,
      sorted by registry number. */
  function SortBySicilNo(ps: seq<Personel>): (r: seq<Personel>)
    ensures SortedBySicilNo(r)
    ensures multiset(r) == multiset(ps)
  {
    if ps == [] then []
    else
      assert ps == [ps[0]] + ps[1..];
      InsertBySicilNo(ps[0], SortBySicilNo(ps[1..]))
  }

  /** One summary row: `${ad} ${soyad}`, the unit's name or '', the stored
      service length or 0, then the employee's leave balance for yil. */
  function SummaryRow(p: Personel, yil: int, personeller: seq<Personel>, kayitlar: seq<IzinKaydi>): OzetSatiri {
    var durum := RemainingLeave(p.id, yil, personeller, kayitlar);
    OzetSatiri(p.id, p.sicilNo, p.ad + " " + p.soyad, p.birimAd.GetOr(""),
      p.hizmetSuresi.GetOr(0), durum.toplam, durum.kullanilan, durum.kalan)
  }

  /** The query's rows: the active employees sorted by registry number. */
  function SortedActive(personeller: seq<Personel>): (r: seq<Personel>)
    ensures SortedBySicilNo(r)
    ensures multiset(r) == multiset(ActiveEmployees(personeller))
    ensures forall p :: p in r ==> p.aktif && p in personeller
  {
    var r := SortBySicilNo(ActiveEmployees(personeller));
    assert forall p :: p in r ==> p in multiset(ActiveEmployees(personeller));
    r
  }

  /** `/yillik-izin-ozet`: one row per active employee, in registry-number
      order, each carrying that employee's balance from kalanIzinGunuHesapla
      unchanged. */
  function YearlyLeaveSummary(yil: int, personeller: seq<Personel>, kayitlar: seq<IzinKaydi>): (rapor: seq<OzetSatiri>)
    ensures |rapor| == |SortedActive(personeller)|
    ensures forall i, j :: 0 <= i < j < |rapor| ==> StrLe(rapor[i].sicilNo, rapor[j].sicilNo)
    ensures forall i :: 0 <= i < |rapor| ==>
      var p := SortedActive(personeller)[i];
      && rapor[i].id == p.id
      && rapor[i].sicilNo == p.sicilNo
      && rapor[i].adSoyad == p.ad + " " + p.soyad
      && rapor[i].birim == p.birimAd.GetOr("")
      && rapor[i].hizmetSuresi == (if p.hizmetSuresi.Some? then p.hizmetSuresi.value else 0)
      && rapor[i].toplam == RemainingLeave(p.id, yil, personeller, kayitlar).toplam
      && rapor[i].kullanilan == RemainingLeave(p.id, yil, personeller, kayitlar).kullanilan
      && rapor[i].kalan == rapor[i].toplam as real - rapor[i].kullanilan
  {
    var sirali := SortedActive(personeller);
    seq(|sirali|, i requires 0 <= i < |sirali| => SummaryRow(sirali[i], yil, personeller, kayitlar))
  }

  /** Every active employee has exactly as many rows as table entries, and no inactive one has any. */
  lemma SummaryCoversActive(personeller: seq<Personel>, p: Personel)
    ensures multiset(SortedActive(personeller))[p] == (if p.aktif then multiset(personeller)[p] else 0)
  {
    ActiveCount(personeller, p);
  }

  lemma {:induction false} ActiveCount(personeller: seq<Personel>, p: Personel)
    ensures multiset(ActiveEmployees(personeller))[p] == (if p.aktif then multiset(personeller)[p] else 0)
  {
    if personeller != [] {
      assert personeller == [personeller[0]] + personeller[1..];
      ActiveCount(personeller[1..], p);
    }
  }

  // ---------------------------------------------------------------------------
  // Monthly pivot of leave days

  /** aylar: the twelve Turkish month names in calendar order. */
  const Aylar: seq<string> := [
    "Ocak", "Şubat", "Mart", "Nisan", "Mayıs", "Haziran",
    "Temmuz", "Ağustos", "Eylül", "Ekim", "Kasım", "Aralık"]

  /** The pivot's month list is the pay-period month list without its empty first entry. */
  lemma MonthListsAgree()
    ensures Aylar == OvertimeCalculation.AyAdlari[1..]
    ensures forall i, j :: 0 <= i < j < |Aylar| ==> Aylar[i] != Aylar[j]
  {
    OvertimeCalculation.MonthNamesDistinct();
    assert forall i :: 0 <= i < 12 ==> Aylar[i] == OvertimeCalculation.AyAdlari[i + 1];
  }

  /** `aylar[date.getMonth()]`: the month name a record is filed under. */
  function MonthName(d: Date): string {
    Aylar[d.month - 1]
  }

  /** Every record's month is one of the pivot's twelve columns. */
  lemma MonthNameListed(d: Date)
    ensures MonthName(d) in Aylar
  {
  }

  /** The `where` of `/pivot`: a start date from January 1 to December 31 of yil. */
  predicate StartsInYear(k: IzinKaydi, yil: int) {
    Le(FirstOfYear(yil), k.baslangicTarihi) && Le(k.baslangicTarihi, LastOfYear(yil))
  }

  /** findMany: the year's records in table order. */
  function YearRecords(table: seq<IzinKaydi>, yil: int): (r: seq<IzinKaydi>)
    ensures forall k :: k in r <==> k in table && k.baslangicTarihi.year == yil
  {
    if table == [] then []
    else
      var rest := YearRecords(table[1..], yil);
      WithinYear(table[0].baslangicTarihi, yil);
      assert forall k :: k in table <==> k == table[0] || k in table[1..];
      if StartsInYear(table[0], yil) then [table[0]] + rest else rest
  }

  /** Every record of the year keeps its multiplicity: two equal rows of the
      table both reach the pivot, and records of other years none. */
  lemma {:induction false} YearRecordsCount(table: seq<IzinKaydi>, yil: int, k: IzinKaydi)
    ensures multiset(YearRecords(table, yil))[k] == if k.baslangicTarihi.year == yil then multiset(table)[k] else 0
  {
    if table != [] {
      assert table == [table[0]] + table[1..];
      WithinYear(table[0].baslangicTarihi, yil);
      YearRecordsCount(table[1..], yil, k);
    }
  }

  predicate HasType(ks: seq<IzinKaydi>, tur: string) {
    exists k :: k in ks && k.izinTuruAd == tur
  }

  predicate HasCell(ks: seq<IzinKaydi>, tur: string, ay: string) {
    exists k :: k in ks && k.izinTuruAd == tur && MonthName(k.baslangicTarihi) == ay
  }

  /** The reference value of one cell: the days of the records of leave type
      `tur` that start in month `ay`. */
  function CellTotal(ks: seq<IzinKaydi>, tur: string, ay: string): real {
    if ks == [] then 0.0
    else
      var son := ks[|ks| - 1];
      CellTotal(ks[..|ks| - 1], tur, ay)
        + (if son.izinTuruAd == tur && MonthName(son.baslangicTarihi) == ay then son.gunSayisi else 0.0)
  }

  /** A record adds its days to its own cell; every other cell keeps its value. */
  lemma CellTotalAppend(ks: seq<IzinKaydi>, k: IzinKaydi, tur: string, ay: string)
    ensures CellTotal(ks + [k], tur, ay)
      == CellTotal(ks, tur, ay) + (if k.izinTuruAd == tur && MonthName(k.baslangicTarihi) == ay then k.gunSayisi else 0.0)
  {
    assert (ks + [k])[..|ks|] == ks;
  }

  /** Appending a record: the row and cell sets grow by the record's own, if new. */
  lemma HasCellAppend(ks: seq<IzinKaydi>, k: IzinKaydi)
    ensures forall tur :: HasType(ks + [k], tur) <==> HasType(ks, tur) || k.izinTuruAd == tur
    ensures forall tur, ay :: (HasCell(ks + [k], tur, ay)
      <==> HasCell(ks, tur, ay) || (k.izinTuruAd == tur && MonthName(k.baslangicTarihi) == ay))
  {
    assert forall r :: r in ks + [k] <==> r in ks || r == k;
  }

  /** A cell no record falls into holds nothing. */
  lemma {:induction false} AbsentCellZero(ks: seq<IzinKaydi>, tur: string, ay: string)
    requires !HasCell(ks, tur, ay)
    ensures CellTotal(ks, tur, ay) == 0.0
  {
    if ks != [] {
      assert forall r :: r in ks[..|ks| - 1] ==> r in ks;
      assert ks[|ks| - 1] in ks;
      AbsentCellZero(ks[..|ks| - 1], tur, ay);
    }
  }

  /** The pivot holds one row per leave type of ks, one cell per month that
      type's records start in, and each cell the days of those records. */
  ghost predicate PivotOf(pivot: map<string, map<string, real>>, ks: seq<IzinKaydi>) {
    && (forall tur :: tur in pivot <==> HasType(ks, tur))
    && (forall tur, ay :: tur in pivot ==> (ay in pivot[tur] <==> HasCell(ks, tur, ay)))
    && (forall tur, ay :: tur in pivot && ay in pivot[tur] ==> pivot[tur][ay] == CellTotal(ks, tur, ay))
  }

  /** One step of the loop: adding a record's days to its cell, creating the
      row and the cell when missing, keeps the pivot matching the records seen. */
  lemma PivotStep(pivot: map<string, map<string, real>>, ks: seq<IzinKaydi>, k: IzinKaydi,
                  satir: map<string, real>, onceki: real)
    requires PivotOf(pivot, ks)
    requires satir == if k.izinTuruAd in pivot then pivot[k.izinTuruAd] else map[]
    requires onceki == if MonthName(k.baslangicTarihi) in satir then satir[MonthName(k.baslangicTarihi)] else 0.0
    ensures PivotOf(pivot[k.izinTuruAd := satir[MonthName(k.baslangicTarihi) := onceki + k.gunSayisi]], ks + [k])
  {
    var tur, ay := k.izinTuruAd, MonthName(k.baslangicTarihi);
    var yeni := pivot[tur := satir[ay := onceki + k.gunSayisi]];
    HasCellAppend(ks, k);
    PivotStepCells(pivot, ks, k, satir, onceki);
  }

  lemma PivotStepCells(pivot: map<string, map<string, real>>, ks: seq<IzinKaydi>, k: IzinKaydi,
                       satir: map<string, real>, onceki: real)
    requires PivotOf(pivot, ks)
    requires satir == if k.izinTuruAd in pivot then pivot[k.izinTuruAd] else map[]
    requires onceki == if MonthName(k.baslangicTarihi) in satir then satir[MonthName(k.baslangicTarihi)] else 0.0
    ensures var yeni := pivot[k.izinTuruAd := satir[MonthName(k.baslangicTarihi) := onceki + k.gunSayisi]];
      forall tur, ay :: tur in yeni && ay in yeni[tur] ==> yeni[tur][ay] == CellTotal(ks + [k], tur, ay)
  {
    var t0, m0 := k.izinTuruAd, MonthName(k.baslangicTarihi);
    var yeni := pivot[t0 := satir[m0 := onceki + k.gunSayisi]];
    if !HasCell(ks, t0, m0) {
      AbsentCellZero(ks, t0, m0);
    }
    forall tur, ay | tur in yeni && ay in yeni[tur]
      ensures yeni[tur][ay] == CellTotal(ks + [k], tur, ay)
    {
      CellTotalAppend(ks, k, tur, ay);
    }
  }

  /** The loop of `/pivot`: files each record's days under its leave type and
      its start month, creating the row and the cell when missing. */
  method AccumulatePivot(izinler: seq<IzinKaydi>) returns (pivot: map<string, map<string, real>>)
    ensures PivotOf(pivot, izinler)
  {
    pivot := map[];
    ghost var gorulen: seq<IzinKaydi> := [];
    var i := 0;
    while i < |izinler|
      invariant 0 <= i <= |izinler|
      invariant gorulen == izinler[..i]
      invariant PivotOf(pivot, gorulen)
    {
      var iz := izinler[i];
      var ay := MonthName(iz.baslangicTarihi);
      var tur := iz.izinTuruAd;
      // `if (!pivot[tur]) pivot[tur] = {}` followed by the write into that row
      var satir := if tur in pivot then pivot[tur] else map[];
      var onceki := if ay in satir then satir[ay] else 0.0;
      PivotStep(pivot, gorulen, iz, satir, onceki);
      pivot := pivot[tur := satir[ay := onceki + iz.gunSayisi]];
      gorulen := gorulen + [iz];
      i := i + 1;
    }
    assert gorulen == izinler;
  }

  /** `/pivot`: the fixed month list, and the pivot of the year's records. */
  method LeavePivot(yil: int, table: seq<IzinKaydi>) returns (aylar: seq<string>, pivot: map<string, map<string, real>>)
    ensures aylar == Aylar
    ensures PivotOf(pivot, YearRecords(table, yil))
  {
    var izinler := YearRecords(table, yil);
    pivot := AccumulatePivot(izinler);
    aylar := Aylar;
  }

  // ---------------------------------------------------------------------------
  // The pivot's grand total

  /** The days of all the records. */
  function TotalDays(ks: seq<IzinKaydi>): real {
    if ks == [] then 0.0 else TotalDays(ks[..|ks| - 1]) + ks[|ks| - 1].gunSayisi
  }

  /** The leave types in the order they first appear: the pivot's rows. */
  function FirstSeenTypes(ks: seq<IzinKaydi>): (turler: seq<string>)
    ensures forall i, j :: 0 <= i < j < |turler| ==> turler[i] != turler[j]
    ensures forall tur :: tur in turler <==> HasType(ks, tur)
  {
    if ks == [] then []
    else
      var init := ks[..|ks| - 1];
      var son := ks[|ks| - 1];
      assert forall k :: k in ks <==> k in init || k == son;
      var seen := FirstSeenTypes(init);
      if son.izinTuruAd in seen then seen else seen + [son.izinTuruAd]
  }

  /** The sum of one row's cells over the given months. */
  function RowTotal(ks: seq<IzinKaydi>, tur: string, aylar: seq<string>): real {
    if aylar == [] then 0.0
    else RowTotal(ks, tur, aylar[..|aylar| - 1]) + CellTotal(ks, tur, aylar[|aylar| - 1])
  }

  /** The sum of the rows of the given types, each over the twelve months. */
  function TypesTotal(ks: seq<IzinKaydi>, turler: seq<string>): real {
    if turler == [] then 0.0
    else TypesTotal(ks, turler[..|turler| - 1]) + RowTotal(ks, turler[|turler| - 1], Aylar)
  }

  predicate NoRepeats(s: seq<string>) {
    forall i, j :: 0 <= i < j < |s| ==> s[i] != s[j]
  }

  /** A record adds its days to its type's row when its month is listed. */
  lemma {:induction false} RowTotalAppend(ks: seq<IzinKaydi>, k: IzinKaydi, tur: string, aylar: seq<string>)
    requires NoRepeats(aylar)
    ensures RowTotal(ks + [k], tur, aylar)
      == RowTotal(ks, tur, aylar)
         + (if k.izinTuruAd == tur && MonthName(k.baslangicTarihi) in aylar then k.gunSayisi else 0.0)
  {
    if aylar != [] {
      var init := aylar[..|aylar| - 1];
      assert forall x :: x in aylar <==> x in init || x == aylar[|aylar| - 1];
      RowTotalAppend(ks, k, tur, init);
      CellTotalAppend(ks, k, tur, aylar[|aylar| - 1]);
    }
  }

  /** A record adds its days to the total of the rows when its type is listed. */
  lemma {:induction false} TypesTotalAppend(ks: seq<IzinKaydi>, k: IzinKaydi, turler: seq<string>)
    requires NoRepeats(turler)
    ensures TypesTotal(ks + [k], turler) == TypesTotal(ks, turler) + (if k.izinTuruAd in turler then k.gunSayisi else 0.0)
  {
    if turler != [] {
      var init := turler[..|turler| - 1];
      assert forall x :: x in turler <==> x in init || x == turler[|turler| - 1];
      TypesTotalAppend(ks, k, init);
      MonthListsAgree();
      MonthNameListed(k.baslangicTarihi);
      RowTotalAppend(ks, k, turler[|turler| - 1], Aylar);
    }
  }

  /** A type without records has an empty row. */
  lemma {:induction false} AbsentTypeEmptyRow(ks: seq<IzinKaydi>, tur: string, aylar: seq<string>)
    requires !HasType(ks, tur)
    ensures RowTotal(ks, tur, aylar) == 0.0
  {
    if aylar != [] {
      AbsentTypeEmptyRow(ks, tur, aylar[..|aylar| - 1]);
      assert !HasCell(ks, tur, aylar[|aylar| - 1]);
      AbsentCellZero(ks, tur, aylar[|aylar| - 1]);
    }
  }

  /** The cells of all the pivot's rows add up to the days of all the year's
      records: every record lands in exactly one cell. */
  lemma {:induction false} PivotTotal(ks: seq<IzinKaydi>)
    ensures TypesTotal(ks, FirstSeenTypes(ks)) == TotalDays(ks)
  {
    if ks != [] {
      var init := ks[..|ks| - 1];
      var k := ks[|ks| - 1];
      assert ks == init + [k];
      PivotTotal(init);
      var seen := FirstSeenTypes(init);
      TypesTotalAppend(init, k, seen);
      if k.izinTuruAd !in seen {
        AbsentTypeEmptyRow(init, k.izinTuruAd, Aylar);
        MonthListsAgree();
        MonthNameListed(k.baslangicTarihi);
        RowTotalAppend(init, k, k.izinTuruAd, Aylar);
        assert seen + [k.izinTuruAd] == FirstSeenTypes(ks);
      }
    }
  }

  /** The pivot's rows are the year's leave types, each with its twelve
      months, and their cells add up to the year's leave days. */
  lemma PivotSumsToYearDays(yil: int, table: seq<IzinKaydi>)
    ensures var izinler := YearRecords(table, yil);
      && (forall tur :: tur in FirstSeenTypes(izinler) <==> HasType(izinler, tur))
      && TypesTotal(izinler, FirstSeenTypes(izinler)) == TotalDays(izinler)
  {
    PivotTotal(YearRecords(table, yil));
  }
}
