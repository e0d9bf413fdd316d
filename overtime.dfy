/** The pay periods and the overtime summary of
    backend/src/services/mesaiHesaplama.ts. The overtime records
    (`mesaiKaydi`, joined with the employee, the employee's unit and the
    overtime reason) that the source queries from the database are a
    parameter here. */
module OvertimeCalculation {
  import opened Calendar
  import opened Wrappers

  // ---------------------------------------------------------------------------
  // Pay periods

  /** A pay period: the window [baslangic, bitis] and its label. */
  datatype OdemeDonemi = OdemeDonemi(baslangic: Date, bitis: Date, etiket: string)

  /** ayAdlari: the Turkish month names, indexed from 1 (index 0 is empty). */
  const AyAdlari: seq<string> := [
    "", "Ocak", "Şubat", "Mart", "Nisan", "Mayıs", "Haziran",
    "Temmuz", "Ağustos", "Eylül", "Ekim", "Kasım", "Aralık"]

  /** The twelve month names are distinct and none holds a space. */
  lemma MonthNamesDistinct()
    ensures |AyAdlari| == 13
    ensures forall i, j :: 1 <= i < j <= 12 ==> AyAdlari[i] != AyAdlari[j]
    ensures forall i, k :: 1 <= i <= 12 && 0 <= k < |AyAdlari[i]| ==> AyAdlari[i][k] != ' '
  {
  }

  function DigitChar(d: int): (c: char)
    requires 0 <= d < 10
    ensures '0' <= c <= '9'
  {
    "0123456789"[d]
  }

  /** The decimal digits of a natural number, most significant first. */
  function NatToDecimal(n: nat): (s: string)
    ensures 1 <= |s|
    ensures forall k :: 0 <= k < |s| ==> '0' <= s[k] <= '9'
    ensures n >= 10 <==> |s| >= 2
  {
    if n < 10 then [DigitChar(n)] else NatToDecimal(n / 10) + [DigitChar(n % 10)]
  }

  /** `${n}` for an integer n: its decimal digits, after a minus sign when negative. */
  function IntToDecimal(n: int): (s: string)
    ensures 1 <= |s|
    ensures forall k :: 0 <= k < |s| ==> s[k] != ' '
    ensures s[0] == '-' <==> n < 0
  {
    if n < 0 then "-" + NatToDecimal(-n) else NatToDecimal(n)
  }

  /** Different numbers have different decimal forms. */
  lemma {:induction false} NatToDecimalInjective(a: nat, b: nat)
    requires NatToDecimal(a) == NatToDecimal(b)
    ensures a == b
  {
    var s := NatToDecimal(a);
    if a >= 10 && b >= 10 {
      var sa, sb := NatToDecimal(a / 10), NatToDecimal(b / 10);
      assert s[..|s| - 1] == sa && s[..|s| - 1] == sb;
      NatToDecimalInjective(a / 10, b / 10);
      assert DigitChar(a % 10) == s[|s| - 1] == DigitChar(b % 10);
    }
  }

  lemma IntToDecimalInjective(a: int, b: int)
    requires IntToDecimal(a) == IntToDecimal(b)
    ensures a == b
  {
    if a < 0 && b < 0 {
      assert IntToDecimal(a)[1..] == NatToDecimal(-a);
      assert IntToDecimal(b)[1..] == NatToDecimal(-b);
      NatToDecimalInjective(-a, -b);
    } else if a >= 0 && b >= 0 {
      NatToDecimalInjective(a, b);
    }
  }

  /** The month before (yil, ay), December of the previous year for January. */
  function PrecedingMonth(yil: int, ay: int): (r: (int, int))
    requires 1 <= ay <= 12
    ensures 1 <= r.1 <= 12
  {
    if ay == 1 then (yil - 1, 12) else (yil, ay - 1)
  }

  /** The month after (yil, ay), January of the next year for December. */
  function FollowingMonth(yil: int, ay: int): (r: (int, int))
    requires 1 <= ay <= 12
    ensures 1 <= r.1 <= 12
    ensures PrecedingMonth(r.0, r.1) == (yil, ay)
  {
    if ay == 12 then (yil + 1, 1) else (yil, ay + 1)
  }

  /** odemeDonemiHesapla: the period labelled (yil, ay) runs from the 25th of
      the preceding month to the 24th of month ay, and is labelled with the
      name of month ay and the year. */
  function PayPeriod(yil: int, ay: int): (p: OdemeDonemi)
    requires 1 <= ay <= 12
    ensures p.baslangic == Ymd(PrecedingMonth(yil, ay).0, PrecedingMonth(yil, ay).1, 25)
    ensures p.bitis == Ymd(yil, ay, 24)
    ensures DayNumber(p.bitis) - DayNumber(p.baslangic) + 1
            == DaysInMonth(PrecedingMonth(yil, ay).0, PrecedingMonth(yil, ay).1)
    ensures p.etiket == AyAdlari[ay] + " " + IntToDecimal(yil)
  {
    var basYil := if ay - 1 == 0 then yil - 1 else yil;
    var basAy := if ay - 1 == 0 then 12 else ay - 1;
    MonthLength(basYil, basAy);
    OdemeDonemi(Ymd(basYil, basAy, 25), Ymd(yil, ay, 24), AyAdlari[ay] + " " + IntToDecimal(yil))
  }

  /** Consecutive periods leave no gap and do not overlap: the day after the
      end of one is the start of the next, December leading to January of
      the following year. */
  lemma PeriodsAdjacent(yil: int, ay: int)
    requires 1 <= ay <= 12
    ensures Next(PayPeriod(yil, ay).bitis) == PayPeriod(FollowingMonth(yil, ay).0, FollowingMonth(yil, ay).1).baslangic
  {
  }

  predicate InPeriod(d: Date, p: OdemeDonemi) {
    Le(p.baslangic, d) && Le(d, p.bitis)
  }

  /** The label of the period a date belongs to: its own month up to the
      24th, the following month from the 25th on. */
  function PeriodOf(d: Date): (r: (int, int))
    ensures 1 <= r.1 <= 12
  {
    if d.day >= 25 then FollowingMonth(d.year, d.month) else (d.year, d.month)
  }

  /** The periods tile the calendar: every date lies in exactly one of them. */
  lemma ExactlyOnePeriod(d: Date, yil: int, ay: int)
    requires 1 <= ay <= 12
    ensures InPeriod(d, PayPeriod(yil, ay)) <==> (yil, ay) == PeriodOf(d)
  {
    var p := PayPeriod(yil, ay);
    DayNumberOrder(p.baslangic, d);
    DayNumberOrder(d, p.bitis);
  }

  /** The position of the first space in s, or |s| when there is none. */
  function FirstSpace(s: string): (i: nat)
    ensures i <= |s|
    ensures forall k :: 0 <= k < i ==> s[k] != ' '
    ensures i < |s| ==> s[i] == ' '
  {
    if |s| == 0 || s[0] == ' ' then 0 else 1 + FirstSpace(s[1..])
  }

  /** A word without spaces followed by a space: the first space comes right after the word. */
  lemma {:induction false} FirstSpaceAfterWord(a: string, t: string)
    requires forall k :: 0 <= k < |a| ==> a[k] != ' '
    ensures FirstSpace(a + " " + t) == |a|
  {
    if |a| > 0 {
      assert (a + " " + t)[1..] == a[1..] + " " + t;
      FirstSpaceAfterWord(a[1..], t);
    }
  }

  /** A label splits at its first space: a name without spaces, then the rest. */
  lemma SplitAtSpace(a: string, b: string, t1: string, t2: string)
    requires forall k :: 0 <= k < |a| ==> a[k] != ' '
    requires forall k :: 0 <= k < |b| ==> b[k] != ' '
    requires a + " " + t1 == b + " " + t2
    ensures a == b && t1 == t2
  {
    var s := a + " " + t1;
    FirstSpaceAfterWord(a, t1);
    FirstSpaceAfterWord(b, t2);
    assert a == s[..|a|] == b;
    assert t1 == s[|a| + 1..] == t2;
  }

  /** Two different periods have different labels. */
  lemma LabelsDistinct(y1: int, m1: int, y2: int, m2: int)
    requires 1 <= m1 <= 12 && 1 <= m2 <= 12
    requires PayPeriod(y1, m1).etiket == PayPeriod(y2, m2).etiket
    ensures y1 == y2 && m1 == m2
  {
    MonthNamesDistinct();
    SplitAtSpace(AyAdlari[m1], AyAdlari[m2], IntToDecimal(y1), IntToDecimal(y2));
    IntToDecimalInjective(y1, y2);
  }

  /** yillikOdemeDonemleriniGetir: the twelve periods of a year in month order. */
  function YearPeriods(yil: int): (r: seq<OdemeDonemi>)
    ensures |r| == 12
    ensures forall i :: 0 <= i < 12 ==> r[i] == PayPeriod(yil, i + 1)
  {
    seq(12, i requires 0 <= i < 12 => PayPeriod(yil, i + 1))
  }

  /** A year's periods run without gap from 25 December of the previous year
      to 24 December, and every date in that span is in exactly one of them. */
  lemma YearPeriodsCover(yil: int, d: Date)
    requires Le(Ymd(yil - 1, 12, 25), d) && Le(d, Ymd(yil, 12, 24))
    ensures YearPeriods(yil)[0].baslangic == Ymd(yil - 1, 12, 25)
    ensures YearPeriods(yil)[11].bitis == Ymd(yil, 12, 24)
    ensures forall i :: 0 <= i < 11 ==> Next(YearPeriods(yil)[i].bitis) == YearPeriods(yil)[i + 1].baslangic
    ensures PeriodOf(d).0 == yil
    ensures InPeriod(d, YearPeriods(yil)[PeriodOf(d).1 - 1])
  {
    DayNumberOrder(Ymd(yil - 1, 12, 25), d);
    DayNumberOrder(d, Ymd(yil, 12, 24));
    forall i | 0 <= i < 11
      ensures Next(YearPeriods(yil)[i].bitis) == YearPeriods(yil)[i + 1].baslangic
    {
      PeriodsAdjacent(yil, i + 1);
    }
    ExactlyOnePeriod(d, yil, PeriodOf(d).1);
  }

  // ---------------------------------------------------------------------------
  // The overtime summary

  /** An overtime record (`mesaiKaydi`) joined with its employee's registry
      number and name, the employee's unit name and the reason's name. */
  datatype MesaiKaydi = MesaiKaydi(
    personelId: int,
    sicilNo: string,
    ad: string,
    soyad: string,
    birimAd: Option<string>,
    tarih: Date,
    saat: real,
    neden: string)

  /** One employee's totals for a period (MesaiOzet). */
  datatype MesaiOzet = MesaiOzet(
    personelId: int,
    sicilNo: string,
    adSoyad: string,
    birim: string,
    fazlaMesaiSaati: real,
    pazarSaati: real,
    bayramCalismasi: real,
    servisSaati: real,
    toplamFazlaMesaiVeServisSaati: real,
    genelToplam: real)

  /** The four overtime reasons that have a total, matched by exact name. */
  const FazlaMesai: string := "Fazla Mesai"
  const PazarCalismasi: string := "Pazar Çalışması"
  const BayramCalismasi: string := "Bayram Çalışması"
  const Servis: string := "Servis"

  predicate IsTotalledReason(neden: string) {
    neden == FazlaMesai || neden == PazarCalismasi || neden == BayramCalismasi || neden == Servis
  }

  /** The `where` of the query: a date in the period, more than zero hours,
      and the given employee when one is given (`if (personelId)`: an absent
      id and the id 0 both mean every employee). */
  predicate Admitted(k: MesaiKaydi, donem: OdemeDonemi, personelId: Option<int>) {
    && Le(donem.baslangic, k.tarih)
    && Le(k.tarih, donem.bitis)
    && k.saat > 0.0
    && (personelId.Some? && personelId.value != 0 ==> k.personelId == personelId.value)
  }

  /** findMany: the admitted records, in the order the store returns them. */
  function OvertimeQuery(table: seq<MesaiKaydi>, donem: OdemeDonemi, personelId: Option<int>): (r: seq<MesaiKaydi>)
    ensures forall k :: k in r <==> k in table && Admitted(k, donem, personelId)
  {
    if table == [] then []
    else
      var rest := OvertimeQuery(table[1..], donem, personelId);
      if Admitted(table[0], donem, personelId) then [table[0]] + rest else rest
  }

  /** Every admitted record keeps its multiplicity: two equal rows of the
      table are both counted, and records the query rejects are not. */
  lemma {:induction false} OvertimeQueryCount(table: seq<MesaiKaydi>, donem: OdemeDonemi, personelId: Option<int>, k: MesaiKaydi)
    ensures multiset(OvertimeQuery(table, donem, personelId))[k]
      == if Admitted(k, donem, personelId) then multiset(table)[k] else 0
  {
    if table != [] {
      assert table == [table[0]] + table[1..];
      OvertimeQueryCount(table[1..], donem, personelId, k);
    }
  }

  predicate HasEmployee(ks: seq<MesaiKaydi>, id: int) {
    exists k :: k in ks && k.personelId == id
  }

  /** The employees of the records in the order they first appear: the keys
      of the source's Map in insertion order. */
  function FirstSeenIds(ks: seq<MesaiKaydi>): (ids: seq<int>)
    ensures forall i, j :: 0 <= i < j < |ids| ==> ids[i] != ids[j]
    ensures forall x :: x in ids <==> HasEmployee(ks, x)
  {
    if ks == [] then []
    else
      var init := ks[..|ks| - 1];
      var son := ks[|ks| - 1];
      var seen := FirstSeenIds(init);
      assert forall k :: k in ks <==> k in init || k == son;
      if son.personelId in seen then seen else seen + [son.personelId]
  }

  /** The first record of an employee: the one the summary takes the registry
      number, the name and the unit from. */
  function FirstRecord(ks: seq<MesaiKaydi>, id: int): (k: MesaiKaydi)
    requires HasEmployee(ks, id)
    ensures k in ks && k.personelId == id
  {
    var init := ks[..|ks| - 1];
    assert forall k :: k in ks <==> k in init || k == ks[|ks| - 1];
    if HasEmployee(init, id) then FirstRecord(init, id) else ks[|ks| - 1]
  }

  /** The position of an employee's first record. */
  function FirstIndex(ks: seq<MesaiKaydi>, id: int): (i: nat)
    requires HasEmployee(ks, id)
    ensures i < |ks| && ks[i].personelId == id
    ensures forall j :: 0 <= j < i ==> ks[j].personelId != id
  {
    if ks[0].personelId == id then 0
    else
      var k :| k in ks && k.personelId == id;
      assert k in ks[1..];
      1 + FirstIndex(ks[1..], id)
  }

  /** Records appended after an employee's first one do not move it. */
  lemma FirstIndexPrefix(ks: seq<MesaiKaydi>, n: nat, id: int)
    requires n <= |ks| && HasEmployee(ks[..n], id)
    ensures HasEmployee(ks, id) && FirstIndex(ks, id) == FirstIndex(ks[..n], id)
  {
    var k :| k in ks[..n] && k.personelId == id;
    assert k in ks;
    var i, j := FirstIndex(ks, id), FirstIndex(ks[..n], id);
    assert ks[j] == ks[..n][j];
  }

  /** The keys come in first-seen order: an earlier key's first record
      precedes a later key's first record. */
  lemma {:induction false} FirstSeenOrder(ks: seq<MesaiKaydi>, i: int, j: int)
    requires 0 <= i < j < |FirstSeenIds(ks)|
    ensures HasEmployee(ks, FirstSeenIds(ks)[i]) && HasEmployee(ks, FirstSeenIds(ks)[j])
    ensures FirstIndex(ks, FirstSeenIds(ks)[i]) < FirstIndex(ks, FirstSeenIds(ks)[j])
  {
    var ids := FirstSeenIds(ks);
    assert ids[i] in ids && ids[j] in ids;
    var n := |ks| - 1;
    var init := ks[..n];
    var seen := FirstSeenIds(init);
    assert seen[..] == ids[..|seen|];
    assert ids[i] in seen;
    FirstIndexPrefix(ks, n, ids[i]);
    if j < |seen| {
      assert ids[j] in seen;
      FirstIndexPrefix(ks, n, ids[j]);
      FirstSeenOrder(init, i, j);
    } else {
      assert ids[j] == ks[n].personelId && ids[j] !in seen;
      assert !HasEmployee(init, ids[j]);
    }
  }

  /** The hours of one employee's records whose reason is named `neden`. */
  function ReasonHours(ks: seq<MesaiKaydi>, id: int, neden: string): real {
    if ks == [] then 0.0
    else
      var son := ks[|ks| - 1];
      ReasonHours(ks[..|ks| - 1], id, neden)
        + (if son.personelId == id && son.neden == neden then son.saat else 0.0)
  }

  /** The hours of one employee's records whose reason is one of the four totalled ones. */
  function TotalledHours(ks: seq<MesaiKaydi>, id: int): real {
    if ks == [] then 0.0
    else
      var son := ks[|ks| - 1];
      TotalledHours(ks[..|ks| - 1], id)
        + (if son.personelId == id && IsTotalledReason(son.neden) then son.saat else 0.0)
  }

  /** Appending a record adds its hours to its own employee's total for its reason only. */
  lemma ReasonHoursAppend(ks: seq<MesaiKaydi>, k: MesaiKaydi, id: int, neden: string)
    ensures ReasonHours(ks + [k], id, neden)
      == ReasonHours(ks, id, neden) + (if k.personelId == id && k.neden == neden then k.saat else 0.0)
  {
    assert (ks + [k])[..|ks|] == ks;
  }

  /** Appending a record keeps an employee's first record, or makes it the first. */
  lemma FirstRecordAppend(ks: seq<MesaiKaydi>, k: MesaiKaydi, id: int)
    requires HasEmployee(ks + [k], id)
    ensures HasEmployee(ks, id) ==> FirstRecord(ks + [k], id) == FirstRecord(ks, id)
    ensures !HasEmployee(ks, id) ==> FirstRecord(ks + [k], id) == k
  {
    assert (ks + [k])[..|ks|] == ks;
  }

  /** An employee's summary after the first loop: the four totals, composites still 0. */
  function Accumulated(ks: seq<MesaiKaydi>, id: int): MesaiOzet
    requires HasEmployee(ks, id)
  {
    var ilk := FirstRecord(ks, id);
    MesaiOzet(id, ilk.sicilNo, ilk.ad + " " + ilk.soyad, ilk.birimAd.GetOr(""),
      ReasonHours(ks, id, FazlaMesai), ReasonHours(ks, id, PazarCalismasi),
      ReasonHours(ks, id, BayramCalismasi), ReasonHours(ks, id, Servis), 0.0, 0.0)
  }

  /** The summary an employee's first record creates: identity columns from
      the record (the unit's name or ''), every total 0. */
  function NewSummary(k: MesaiKaydi): (o: MesaiOzet)
    ensures o.personelId == k.personelId
    ensures o.fazlaMesaiSaati == 0.0 && o.pazarSaati == 0.0 && o.bayramCalismasi == 0.0 && o.servisSaati == 0.0
  {
    MesaiOzet(k.personelId, k.sicilNo, k.ad + " " + k.soyad, k.birimAd.GetOr(""), 0.0, 0.0, 0.0, 0.0, 0.0, 0.0)
  }

  /** The specification of the `switch (neden)` step that GroupByEmployee
      performs in place: the hours go to the total the reason names, and a
      reason that names none of the four changes nothing. */
  function AddHours(o: MesaiOzet, neden: string, saat: real): (r: MesaiOzet)
    ensures IsTotalledReason(neden) ==>
      r.fazlaMesaiSaati + r.pazarSaati + r.bayramCalismasi + r.servisSaati
        == o.fazlaMesaiSaati + o.pazarSaati + o.bayramCalismasi + o.servisSaati + saat
    ensures !IsTotalledReason(neden) ==> r == o
    ensures r.(fazlaMesaiSaati := 0.0, pazarSaati := 0.0, bayramCalismasi := 0.0, servisSaati := 0.0)
         == o.(fazlaMesaiSaati := 0.0, pazarSaati := 0.0, bayramCalismasi := 0.0, servisSaati := 0.0)
  {
    ReasonsDistinct();
    o.(fazlaMesaiSaati := o.fazlaMesaiSaati + (if neden == FazlaMesai then saat else 0.0),
       pazarSaati := o.pazarSaati + (if neden == PazarCalismasi then saat else 0.0),
       bayramCalismasi := o.bayramCalismasi + (if neden == BayramCalismasi then saat else 0.0),
       servisSaati := o.servisSaati + (if neden == Servis then saat else 0.0))
  }

  /** Appending a record to the admitted ones: its employee's summary is
      created from it when new, and the record's hours go to the total its
      reason names; the other employees' summaries do not change. */
  lemma AccumulatedAppend(ks: seq<MesaiKaydi>, k: MesaiKaydi, x: int)
    requires HasEmployee(ks + [k], x)
    ensures k.personelId != x ==> HasEmployee(ks, x) && Accumulated(ks + [k], x) == Accumulated(ks, x)
    ensures k.personelId == x ==>
      Accumulated(ks + [k], x)
        == AddHours(if HasEmployee(ks, x) then Accumulated(ks, x) else NewSummary(k), k.neden, k.saat)
  {
    assert forall r :: r in ks + [k] <==> r in ks || r == k;
    FirstRecordAppend(ks, k, x);
    ReasonHoursAppend(ks, k, x, FazlaMesai);
    ReasonHoursAppend(ks, k, x, PazarCalismasi);
    ReasonHoursAppend(ks, k, x, BayramCalismasi);
    ReasonHoursAppend(ks, k, x, Servis);
    if !HasEmployee(ks, x) {
      assert ReasonHours(ks, x, FazlaMesai) == 0.0 by { NoRecordNoHours(ks, x, FazlaMesai); }
      assert ReasonHours(ks, x, PazarCalismasi) == 0.0 by { NoRecordNoHours(ks, x, PazarCalismasi); }
      assert ReasonHours(ks, x, BayramCalismasi) == 0.0 by { NoRecordNoHours(ks, x, BayramCalismasi); }
      assert ReasonHours(ks, x, Servis) == 0.0 by { NoRecordNoHours(ks, x, Servis); }
    }
  }

  /** An employee without records has no hours. */
  lemma {:induction false} NoRecordNoHours(ks: seq<MesaiKaydi>, x: int, neden: string)
    requires !HasEmployee(ks, x)
    ensures ReasonHours(ks, x, neden) == 0.0
  {
    if ks != [] {
      assert forall r :: r in ks[..|ks| - 1] ==> r in ks;
      NoRecordNoHours(ks[..|ks| - 1], x, neden);
    }
  }

  /** The specification of the step that AddComposites performs in place on
      each summary: overtime plus shuttle, and the sum of the four totals. */
  function WithComposites(o: MesaiOzet): (r: MesaiOzet)
    ensures r.toplamFazlaMesaiVeServisSaati == o.fazlaMesaiSaati + o.servisSaati
    ensures r.genelToplam == o.fazlaMesaiSaati + o.pazarSaati + o.bayramCalismasi + o.servisSaati
    ensures r.(toplamFazlaMesaiVeServisSaati := 0.0, genelToplam := 0.0)
         == o.(toplamFazlaMesaiVeServisSaati := 0.0, genelToplam := 0.0)
  {
    o.(toplamFazlaMesaiVeServisSaati := o.fazlaMesaiSaati + o.servisSaati,
       genelToplam := o.fazlaMesaiSaati + o.pazarSaati + o.bayramCalismasi + o.servisSaati)
  }

  /** The summary of one employee of the admitted records. */
  function Summary(ks: seq<MesaiKaydi>, id: int): MesaiOzet
    requires HasEmployee(ks, id)
  {
    WithComposites(Accumulated(ks, id))
  }

  /** The reference result: one summary per employee, in first-seen order. */
  function Summaries(ks: seq<MesaiKaydi>): (r: seq<MesaiOzet>)
    ensures |r| == |FirstSeenIds(ks)|
    ensures forall i, j :: 0 <= i < j < |r| ==> r[i].personelId != r[j].personelId
    ensures forall x :: HasEmployee(ks, x) <==> exists i :: 0 <= i < |r| && r[i].personelId == x
    ensures forall i :: 0 <= i < |r| ==> r[i].personelId == FirstSeenIds(ks)[i]
    ensures forall i :: 0 <= i < |r| ==> HasEmployee(ks, r[i].personelId) && r[i] == Summary(ks, r[i].personelId)
  {
    var ids := FirstSeenIds(ks);
    var r := seq(|ids|, i requires 0 <= i < |ids| => Summary(ks, ids[i]));
    assert forall i :: 0 <= i < |ids| ==> r[i].personelId == ids[i];
    r
  }

  /** The map after the first loop has seen ks: its keys in insertion order
      are the employees of ks, and each value holds that employee's totals. */
  ghost predicate GroupedAs(ids: seq<int>, personelMap: map<int, MesaiOzet>, ks: seq<MesaiKaydi>) {
    && ids == FirstSeenIds(ks)
    && (forall x :: x in personelMap <==> x in ids)
    && (forall x :: x in ids ==> personelMap[x] == Accumulated(ks, x))
  }

  /** One employee's entry after a step of the first loop. */
  lemma GroupStepEntry(personelMap: map<int, MesaiOzet>, ks: seq<MesaiKaydi>, k: MesaiKaydi,
                       eklenmis: map<int, MesaiOzet>, ozet: MesaiOzet, x: int)
    requires forall y :: y in personelMap <==> HasEmployee(ks, y)
    requires forall y :: y in personelMap ==> personelMap[y] == Accumulated(ks, y)
    requires eklenmis == if k.personelId in personelMap then personelMap else personelMap[k.personelId := NewSummary(k)]
    requires ozet == AddHours(eklenmis[k.personelId], k.neden, k.saat)
    requires HasEmployee(ks + [k], x)
    ensures x in eklenmis[k.personelId := ozet]
    ensures eklenmis[k.personelId := ozet][x] == Accumulated(ks + [k], x)
  {
    AccumulatedAppend(ks, k, x);
  }

  /** One step of the first loop: creating the record's summary when its
      employee is new, then adding its hours, keeps the map grouped. */
  lemma GroupStep(ids: seq<int>, personelMap: map<int, MesaiOzet>, ks: seq<MesaiKaydi>, k: MesaiKaydi,
                  eklenmis: map<int, MesaiOzet>, ozet: MesaiOzet)
    requires GroupedAs(ids, personelMap, ks)
    requires eklenmis == if k.personelId in personelMap then personelMap else personelMap[k.personelId := NewSummary(k)]
    requires ozet == AddHours(eklenmis[k.personelId], k.neden, k.saat)
    ensures GroupedAs(if k.personelId in personelMap then ids else ids + [k.personelId],
                      eklenmis[k.personelId := ozet], ks + [k])
  {
    assert (ks + [k])[..|ks|] == ks;
    var yeniIds := if k.personelId in personelMap then ids else ids + [k.personelId];
    assert yeniIds == FirstSeenIds(ks + [k]);
    forall x | x in yeniIds
      ensures x in eklenmis[k.personelId := ozet]
      ensures eklenmis[k.personelId := ozet][x] == Accumulated(ks + [k], x)
    {
      GroupStepEntry(personelMap, ks, k, eklenmis, ozet, x);
    }
  }

  /** The first loop of mesaiOzetHesapla: groups the admitted records by
      employee into a map kept in insertion order and adds each record's hours
      to the total its reason names. */
  method GroupByEmployee(kayitlar: seq<MesaiKaydi>) returns (ids: seq<int>, personelMap: map<int, MesaiOzet>)
    ensures GroupedAs(ids, personelMap, kayitlar)
  {
    ids := [];
    personelMap := map[];
    ghost var gorulen: seq<MesaiKaydi> := [];
    ReasonsDistinct();
    var i := 0;
    while i < |kayitlar|
      invariant 0 <= i <= |kayitlar|
      invariant gorulen == kayitlar[..i]
      invariant GroupedAs(ids, personelMap, gorulen)
    {
      var kayit := kayitlar[i];
      var pid := kayit.personelId;
      ghost var onceki, oncekiIds := personelMap, ids;
      if pid !in personelMap {
        personelMap := personelMap[pid := NewSummary(kayit)];
        ids := ids + [pid];
      }
      var ozet := personelMap[pid];
      var saat := kayit.saat;
      var neden := kayit.neden;
      ghost var eski := ozet;
      if neden == FazlaMesai {
        ozet := ozet.(fazlaMesaiSaati := ozet.fazlaMesaiSaati + saat);
      } else if neden == PazarCalismasi {
        ozet := ozet.(pazarSaati := ozet.pazarSaati + saat);
      } else if neden == BayramCalismasi {
        ozet := ozet.(bayramCalismasi := ozet.bayramCalismasi + saat);
      } else if neden == Servis {
        ozet := ozet.(servisSaati := ozet.servisSaati + saat);
      }
      assert ozet == AddHours(eski, neden, saat);
      GroupStep(oncekiIds, onceki, gorulen, kayit, personelMap, ozet);
      personelMap := personelMap[pid := ozet];
      gorulen := gorulen + [kayit];
      i := i + 1;
    }
    assert gorulen == kayitlar;
  }

  /** The map during the second loop: the first j keys' summaries are
      complete, the others still hold only the four totals. */
  ghost predicate CompletedUpTo(ids: seq<int>, ozetMap: map<int, MesaiOzet>, ks: seq<MesaiKaydi>, j: int) {
    && ids == FirstSeenIds(ks)
    && 0 <= j <= |ids|
    && (forall n :: 0 <= n < |ids| ==> ids[n] in ozetMap)
    && (forall n :: 0 <= n < j ==> ozetMap[ids[n]] == Summary(ks, ids[n]))
    && (forall n :: j <= n < |ids| ==> ozetMap[ids[n]] == Accumulated(ks, ids[n]))
  }

  /** One step of the second loop: completing the next summary. */
  lemma CompleteStep(ids: seq<int>, ozetMap: map<int, MesaiOzet>, ks: seq<MesaiKaydi>, j: int)
    requires CompletedUpTo(ids, ozetMap, ks, j) && j < |ids|
    ensures CompletedUpTo(ids, ozetMap[ids[j] := WithComposites(ozetMap[ids[j]])], ks, j + 1)
  {
  }

  /** The map's values read in insertion order are the reference summaries
      once every entry has been completed. */
  lemma ValuesInInsertionOrder(kayitlar: seq<MesaiKaydi>, ids: seq<int>, ozetMap: map<int, MesaiOzet>)
    requires CompletedUpTo(ids, ozetMap, kayitlar, |ids|)
    ensures seq(|ids|, n requires 0 <= n < |ids| => ozetMap[ids[n]]) == Summaries(kayitlar)
  {
  }

  /** The second loop of mesaiOzetHesapla: fills in the two composites of
      every grouped summary and returns the map's values in insertion order. */
  method AddComposites(kayitlar: seq<MesaiKaydi>, ids: seq<int>, personelMap: map<int, MesaiOzet>)
    returns (ozetler: seq<MesaiOzet>)
    requires GroupedAs(ids, personelMap, kayitlar)
    ensures ozetler == Summaries(kayitlar)
  {
    var ozetMap := personelMap;
    var j := 0;
    while j < |ids|
      invariant CompletedUpTo(ids, ozetMap, kayitlar, j)
    {
      var ozet := ozetMap[ids[j]];
      ghost var eski := ozet;
      ozet := ozet.(toplamFazlaMesaiVeServisSaati := ozet.fazlaMesaiSaati + ozet.servisSaati);
      ozet := ozet.(genelToplam := ozet.fazlaMesaiSaati + ozet.pazarSaati + ozet.bayramCalismasi + ozet.servisSaati);
      assert ozet == WithComposites(eski);
      CompleteStep(ids, ozetMap, kayitlar, j);
      ozetMap := ozetMap[ids[j] := ozet];
      j := j + 1;
    }
    ValuesInInsertionOrder(kayitlar, ids, ozetMap);
    ozetler := seq(|ids|, n requires 0 <= n < |ids| => ozetMap[ids[n]]);
  }

  /** mesaiOzetHesapla: resolves the period, queries the records, groups them
      by employee and completes the summaries. */
  method OvertimeSummary(yil: int, ay: int, personelId: Option<int>, table: seq<MesaiKaydi>)
    returns (ozetler: seq<MesaiOzet>)
    requires 1 <= ay <= 12
    ensures ozetler == Summaries(OvertimeQuery(table, PayPeriod(yil, ay), personelId))
  {
    var donem := PayPeriod(yil, ay);
    var kayitlar := OvertimeQuery(table, donem, personelId);
    var ids, personelMap := GroupByEmployee(kayitlar);
    ozetler := AddComposites(kayitlar, ids, personelMap);
  }

  /** The four totalled reasons are four different names, so a record adds to at most one total. */
  lemma ReasonsDistinct()
    ensures FazlaMesai != PazarCalismasi && FazlaMesai != BayramCalismasi && FazlaMesai != Servis
    ensures PazarCalismasi != BayramCalismasi && PazarCalismasi != Servis && BayramCalismasi != Servis
  {
    assert |FazlaMesai| == 11 && |PazarCalismasi| == 15 && |BayramCalismasi| == 16 && |Servis| == 6;
  }

  /** The four totals together hold the hours of every record whose reason is totalled. */
  lemma {:induction false} FourTotalsCoverTotalled(ks: seq<MesaiKaydi>, id: int)
    ensures ReasonHours(ks, id, FazlaMesai) + ReasonHours(ks, id, PazarCalismasi)
          + ReasonHours(ks, id, BayramCalismasi) + ReasonHours(ks, id, Servis)
         == TotalledHours(ks, id)
  {
    if ks != [] {
      FourTotalsCoverTotalled(ks[..|ks| - 1], id);
      ReasonsDistinct();
    }
  }

  /** The grand total of a summary is the hours of all the employee's records
      with a totalled reason, and the combined figure is overtime plus shuttle. */
  lemma GrandTotal(ks: seq<MesaiKaydi>, id: int)
    requires HasEmployee(ks, id)
    ensures Summary(ks, id).genelToplam == TotalledHours(ks, id)
    ensures Summary(ks, id).toplamFazlaMesaiVeServisSaati
         == ReasonHours(ks, id, FazlaMesai) + ReasonHours(ks, id, Servis)
  {
    FourTotalsCoverTotalled(ks, id);
  }

  /** A record whose reason is none of the four adds no hours: an employee
      already summarised keeps the same summary, and an employee first seen
      through it gets a row of zeros carrying its name and unit. */
  lemma OtherReasonIgnored(ks: seq<MesaiKaydi>, k: MesaiKaydi, x: int)
    requires !IsTotalledReason(k.neden)
    requires HasEmployee(ks + [k], x)
    ensures HasEmployee(ks, x) ==> Summary(ks + [k], x) == Summary(ks, x)
    ensures !HasEmployee(ks, x) ==>
      Summary(ks + [k], x) == MesaiOzet(x, k.sicilNo, k.ad + " " + k.soyad, k.birimAd.GetOr(""),
                                       0.0, 0.0, 0.0, 0.0, 0.0, 0.0)
  {
    AccumulatedAppend(ks, k, x);
  }

  /** Records that all belong to one employee yield at most that employee's id. */
  lemma {:induction false} OneEmployeeIds(ks: seq<MesaiKaydi>, p: int)
    requires forall k :: k in ks ==> k.personelId == p
    ensures FirstSeenIds(ks) == [] || FirstSeenIds(ks) == [p]
  {
    if ks != [] {
      var init := ks[..|ks| - 1];
      assert forall k :: k in init ==> k in ks;
      assert ks[|ks| - 1] in ks;
      OneEmployeeIds(init, p);
    }
  }

  /** A non-zero employee id restricts the summaries to that employee: at most one row, and it is theirs. */
  lemma EmployeeFilter(table: seq<MesaiKaydi>, donem: OdemeDonemi, p: int)
    requires p != 0
    ensures var r := Summaries(OvertimeQuery(table, donem, Some(p)));
      |r| <= 1 && forall i :: 0 <= i < |r| ==> r[i].personelId == p
  {
    OneEmployeeIds(OvertimeQuery(table, donem, Some(p)), p);
  }

  /** One employee's records dated in January 2025: 2 hours of overtime,
      1.5 hours of Sunday work and a 0-hour overtime record. */
  const JanuaryRecords: seq<MesaiKaydi> := [
    MesaiKaydi(7, "1001", "Ali", "Kaya", Some("Muhasebe"), Ymd(2025, 1, 5), 2.0, FazlaMesai),
    MesaiKaydi(7, "1001", "Ali", "Kaya", Some("Muhasebe"), Ymd(2025, 1, 12), 1.5, PazarCalismasi),
    MesaiKaydi(7, "1001", "Ali", "Kaya", Some("Muhasebe"), Ymd(2025, 1, 14), 0.0, FazlaMesai)]

  /** The query for the January 2025 period keeps the two records with hours. */
  lemma JanuaryQuery()
    ensures OvertimeQuery(JanuaryRecords, PayPeriod(2025, 1), None) == JanuaryRecords[..2]
  {
    var donem := PayPeriod(2025, 1);
    var k1, k2, k3 := JanuaryRecords[0], JanuaryRecords[1], JanuaryRecords[2];
    YearLength(2024);
    assert Admitted(k1, donem, None) && Admitted(k2, donem, None) && !Admitted(k3, donem, None);
    assert JanuaryRecords[1..] == [k2, k3] && [k2, k3][1..] == [k3] && [k3][1..] == [];
    assert OvertimeQuery([k3], donem, None) == [];
    assert OvertimeQuery([k2, k3], donem, None) == [k2];
  }

  /** The two admitted records add up to 2 hours of overtime and 1.5 of Sunday work. */
  lemma JanuaryHours()
    ensures ReasonHours(JanuaryRecords[..2], 7, FazlaMesai) == 2.0
    ensures ReasonHours(JanuaryRecords[..2], 7, PazarCalismasi) == 1.5
    ensures ReasonHours(JanuaryRecords[..2], 7, BayramCalismasi) == 0.0
    ensures ReasonHours(JanuaryRecords[..2], 7, Servis) == 0.0
  {
    var k1, k2 := JanuaryRecords[0], JanuaryRecords[1];
    ReasonsDistinct();
    assert [] + [k1] == [k1] && [k1] + [k2] == JanuaryRecords[..2];
    ReasonHoursAppend([], k1, 7, FazlaMesai);
    ReasonHoursAppend([], k1, 7, PazarCalismasi);
    ReasonHoursAppend([], k1, 7, BayramCalismasi);
    ReasonHoursAppend([], k1, 7, Servis);
    ReasonHoursAppend([k1], k2, 7, FazlaMesai);
    ReasonHoursAppend([k1], k2, 7, PazarCalismasi);
    ReasonHoursAppend([k1], k2, 7, BayramCalismasi);
    ReasonHoursAppend([k1], k2, 7, Servis);
  }

  /** The January 2025 summary: one row with 2 / 1.5 / 0 / 0, overtime plus
      shuttle 2 and grand total 3.5; the 0-hour record is not admitted. */
  lemma JanuaryExample()
    ensures Summaries(OvertimeQuery(JanuaryRecords, PayPeriod(2025, 1), None))
         == [MesaiOzet(7, "1001", "Ali" + " " + "Kaya", "Muhasebe", 2.0, 1.5, 0.0, 0.0, 2.0, 3.5)]
  {
    JanuaryQuery();
    JanuaryHours();
    JanuaryEmployee();
    var ks := JanuaryRecords[..2];
    var r := Summaries(ks);
    assert |r| == 1 && r[0].personelId == 7;
    assert r == [Summary(ks, 7)];
  }

  /** The two admitted January records belong to one employee, whose first
      record supplies the identity columns. */
  lemma JanuaryEmployee()
    ensures FirstSeenIds(JanuaryRecords[..2]) == [7]
    ensures HasEmployee(JanuaryRecords[..2], 7) && FirstRecord(JanuaryRecords[..2], 7) == JanuaryRecords[0]
  {
    var ks := JanuaryRecords[..2];
    var k1 := JanuaryRecords[0];
    assert ks[..1] == [k1] && [k1][..0] == [];
    assert FirstSeenIds([k1]) == [7];
    assert HasEmployee([k1], 7);
  }
}
