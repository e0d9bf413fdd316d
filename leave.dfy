/** The working-day calendar and the annual-leave entitlement of
    backend/src/services/izinHesaplama.ts. The holiday table (`resmiTatil`),
    the employee table (`personel`) and the leave records (`izinKaydi`) that
    the source reads from the database are parameters here. */
module LeaveCalculation {
  import opened Calendar
  import opened Wrappers

  /** An employee row (`personel`) with the fields the calculations read;
      `birimAd` is the joined unit's name. */
  datatype Personel = Personel(
    id: int,
    sicilNo: string,
    ad: string,
    soyad: string,
    birimAd: Option<string>,
    hizmetSuresi: Option<int>,
    goreveBaslamaTarihi: Option<Date>,
    aktif: bool)

  /** A leave record (`izinKaydi`); `izinTuruAd` is the joined leave type's name. */
  datatype IzinKaydi = IzinKaydi(
    personelId: int,
    izinTuruId: int,
    izinTuruAd: string,
    baslangicTarihi: Date,
    bitisTarihi: Date,
    gunSayisi: real)

  /** The `{ toplam, kullanilan, kalan }` balance of one employee for one year. */
  datatype IzinDurumu = IzinDurumu(toplam: int, kullanilan: real, kalan: real)

  /** The id of the annual-leave type ("Yıllık İzin"), fixed in the source. */
  const AnnualLeaveTypeId: int := 1

  // ---------------------------------------------------------------------------
  // Holidays and working days

  /** date-fns isSameDay: the same year, month and day. */
  predicate SameDay(a: Date, b: Date) {
    a.year == b.year && a.month == b.month && a.day == b.day
  }

  /** isTatilGunu: a weekend day, or the same calendar day as one of the holidays. */
  function IsNonWorkingDay(tarih: Date, resmiTatiller: seq<Date>): (r: bool)
    ensures r <==> Weekday(tarih) == 6 || Weekday(tarih) == 0 || tarih in resmiTatiller
  {
    IsWeekend(tarih) || exists t :: t in resmiTatiller && SameDay(t, tarih)
  }

  /** getResmiTatiller: the holidays whose date lies in [yil-01-01, yil-12-31],
      that is, the holidays of calendar year yil. */
  function HolidaysOfYear(table: seq<Date>, yil: int): (r: seq<Date>)
    ensures forall t :: t in r <==> t in table && t.year == yil
  {
    if table == [] then []
    else
      var rest := HolidaysOfYear(table[1..], yil);
      WithinYear(table[0], yil);
      if Le(FirstOfYear(yil), table[0]) && Le(table[0], LastOfYear(yil)) then [table[0]] + rest
      else rest
  }

  /** The number of working days in the closed interval [s, e]: the reference
      definition that the counting loop and the end-date walk are proved against. */
  function WorkingDaysIn(s: Date, e: Date, holidays: seq<Date>): (n: nat)
    ensures n <= if Le(s, e) then DayNumber(e) - DayNumber(s) + 1 else 0
    decreases DayNumber(e) - DayNumber(s)
  {
    if Lt(e, s) then 0
    else (if IsNonWorkingDay(s, holidays) then 0 else 1) + WorkingDaysIn(Next(s), e, holidays)
  }

  /** A single day counts one exactly when it is a working day. */
  lemma WorkingDaysInOneDay(d: Date, holidays: seq<Date>)
    ensures WorkingDaysIn(d, d, holidays) == if IsNonWorkingDay(d, holidays) then 0 else 1
  {
  }

  /** The count is additive: [s, e] splits into [s, m] and [m + 1, e]. */
  lemma {:induction false} WorkingDaysSplit(s: Date, m: Date, e: Date, holidays: seq<Date>)
    requires Le(s, m) && Le(m, e)
    ensures WorkingDaysIn(s, e, holidays) == WorkingDaysIn(s, m, holidays) + WorkingDaysIn(Next(m), e, holidays)
    decreases DayNumber(m) - DayNumber(s)
  {
    if Lt(s, m) {
      WorkingDaysSplit(Next(s), m, e, holidays);
    } else {
      DayNumberInjective(s, m);
    }
  }

  /** Two holiday lists that agree on every day of [s, e] give the same count. */
  lemma {:induction false} WorkingDaysAgree(s: Date, e: Date, h1: seq<Date>, h2: seq<Date>)
    requires forall d: Date :: Le(s, d) && Le(d, e) ==> (d in h1 <==> d in h2)
    ensures WorkingDaysIn(s, e, h1) == WorkingDaysIn(s, e, h2)
    decreases DayNumber(e) - DayNumber(s)
  {
    if Le(s, e) {
      WorkingDaysAgree(Next(s), e, h1, h2);
    }
  }

  /** An interval that ends on a working day holds at least one working day. */
  lemma {:induction false} EndsOnWorkingDay(s: Date, e: Date, holidays: seq<Date>)
    requires Le(s, e) && !IsNonWorkingDay(e, holidays)
    ensures WorkingDaysIn(s, e, holidays) >= 1
    decreases DayNumber(e) - DayNumber(s)
  {
    if Lt(s, e) {
      EndsOnWorkingDay(Next(s), e, holidays);
    } else {
      DayNumberInjective(s, e);
    }
  }

  /** With 1 January 2025 (a Wednesday) a holiday, 1 to 3 January 2025 holds
      two working days. */
  lemma NewYearExample()
    ensures WorkingDaysIn(Ymd(2025, 1, 1), Ymd(2025, 1, 3), [Ymd(2025, 1, 1)]) == 2
  {
    NewYear2025();
    var d1, d2, d3: Date := Ymd(2025, 1, 1), Ymd(2025, 1, 2), Ymd(2025, 1, 3);
    assert Next(d1) == d2 && Next(d2) == d3;
    WeekdayNext(d1);
    WeekdayNext(d2);
    assert WorkingDaysIn(d3, d3, [d1]) == 1;
    assert WorkingDaysIn(d2, d3, [d1]) == 2;
  }

  /** izinGunSayisiHesapla: loads the holidays of every year from the start's to
      the end's, then counts the days of [baslangic, bitis] that are not
      holidays or weekend days. No holiday in the interval is missed: the count
      is the one against the whole holiday table. */
  method CountWorkingDays(baslangic: Date, bitis: Date, table: seq<Date>) returns (isGunuSayisi: nat)
    requires Le(baslangic, bitis)
    ensures isGunuSayisi == WorkingDaysIn(baslangic, bitis, table)
  {
    YearsBetween(baslangic, baslangic, bitis);
    var yil1 := baslangic.year;
    var yil2 := bitis.year;
    var tatiller: seq<Date> := [];
    var y := yil1;
    while y <= yil2
      invariant yil1 <= y <= yil2 + 1
      invariant forall t :: t in tatiller <==> t in table && yil1 <= t.year < y
    {
      tatiller := tatiller + HolidaysOfYear(table, y);
      y := y + 1;
    }

    isGunuSayisi := 0;
    var gun := baslangic;
    while Le(gun, bitis)
      invariant Le(baslangic, gun) && DayNumber(gun) <= DayNumber(bitis) + 1
      invariant isGunuSayisi + WorkingDaysIn(gun, bitis, tatiller) == WorkingDaysIn(baslangic, bitis, tatiller)
      decreases DayNumber(bitis) - DayNumber(gun)
    {
      if !IsNonWorkingDay(gun, tatiller) {
        isGunuSayisi := isGunuSayisi + 1;
      }
      gun := Next(gun);
    }

    forall d: Date | Le(baslangic, d) && Le(d, bitis)
      ensures d in tatiller <==> d in table
    {
      YearsBetween(baslangic, d, bitis);
    }
    WorkingDaysAgree(baslangic, bitis, tatiller, table);
  }

  // ---------------------------------------------------------------------------
  // The end-date walk

  /** tumTatiller: the holidays of the start's year and of the following year. */
  function WalkHolidays(table: seq<Date>, yil: int): (r: seq<Date>)
    ensures forall t :: t in r <==> t in table && (t.year == yil || t.year == yil + 1)
  {
    HolidaysOfYear(table, yil) + HolidaysOfYear(table, yil + 1)
  }

  /** The holidays on or after `cur`; the walk passes each of them at most once. */
  ghost function HolidaysAhead(cur: Date, holidays: seq<Date>): set<Date> {
    set t | t in holidays && Le(cur, t)
  }

  /** Days from a Saturday or a Sunday to the next Monday. */
  function WeekendGap(d: Date): nat {
    if Weekday(d) == 6 then 2 else if Weekday(d) == 0 then 1 else 0
  }

  lemma HolidaysAheadNext(cur: Date, holidays: seq<Date>)
    ensures HolidaysAhead(Next(cur), holidays) == HolidaysAhead(cur, holidays) - {cur}
  {
    forall t | t in holidays
      ensures t in HolidaysAhead(Next(cur), holidays) <==> t in HolidaysAhead(cur, holidays) - {cur}
    {
      DayNumberInjective(t, cur);
    }
  }

  /** One more day of the walk adds that day's count to the running total. */
  lemma WorkingDaysExtend(s: Date, cur: Date, holidays: seq<Date>)
    requires Le(s, cur)
    ensures WorkingDaysIn(s, Next(cur), holidays)
      == WorkingDaysIn(s, cur, holidays) + (if IsNonWorkingDay(Next(cur), holidays) then 0 else 1)
  {
    WorkingDaysSplit(s, cur, Next(cur), holidays);
  }

  /** Stepping over a non-working day passes a holiday or comes closer to Monday. */
  lemma SkipMakesProgress(cur: Date, holidays: seq<Date>)
    requires IsNonWorkingDay(cur, holidays)
    ensures || |HolidaysAhead(Next(cur), holidays)| < |HolidaysAhead(cur, holidays)|
            || (&& |HolidaysAhead(Next(cur), holidays)| == |HolidaysAhead(cur, holidays)|
                && WeekendGap(Next(cur)) < WeekendGap(cur))
  {
    HolidaysAheadNext(cur, holidays);
    if cur in holidays {
      assert cur in HolidaysAhead(cur, holidays);
    } else {
      WeekdayNext(cur);
    }
  }

  /** hesaplaIzinBitisTarihi: walks forward from the start one day at a time,
      using up one of the requested days on each working day, and stops on the
      day that uses up the last one. Only the holidays of the start's year and
      of the next year are consulted. */
  method EndDate(baslangic: Date, izinGunSayisi: int, table: seq<Date>) returns (mevcutTarih: Date)
    ensures izinGunSayisi <= 0 ==> mevcutTarih == baslangic
    ensures izinGunSayisi >= 1 ==>
      && Le(baslangic, mevcutTarih)
      && !IsNonWorkingDay(mevcutTarih, WalkHolidays(table, baslangic.year))
      && WorkingDaysIn(baslangic, mevcutTarih, WalkHolidays(table, baslangic.year)) == izinGunSayisi
  {
    var yil := baslangic.year;
    var tatiller := HolidaysOfYear(table, yil);
    var sonrakiYilTatiller := HolidaysOfYear(table, yil + 1);
    var tumTatiller := tatiller + sonrakiYilTatiller;

    var kalanGun := izinGunSayisi;
    mevcutTarih := baslangic;
    while kalanGun > 0
      invariant Le(baslangic, mevcutTarih)
      invariant izinGunSayisi <= 0 ==> mevcutTarih == baslangic
      invariant kalanGun <= izinGunSayisi
      invariant izinGunSayisi >= 1 ==> 0 <= kalanGun
      invariant kalanGun > 0 ==>
        WorkingDaysIn(baslangic, mevcutTarih, tumTatiller)
          == izinGunSayisi - kalanGun + (if IsNonWorkingDay(mevcutTarih, tumTatiller) then 0 else 1)
      invariant izinGunSayisi >= 1 && kalanGun == 0 ==>
        && WorkingDaysIn(baslangic, mevcutTarih, tumTatiller) == izinGunSayisi
        && !IsNonWorkingDay(mevcutTarih, tumTatiller)
      decreases kalanGun, |HolidaysAhead(mevcutTarih, tumTatiller)|, WeekendGap(mevcutTarih)
    {
      if !IsNonWorkingDay(mevcutTarih, tumTatiller) {
        kalanGun := kalanGun - 1;
      } else {
        SkipMakesProgress(mevcutTarih, tumTatiller);
      }
      if kalanGun > 0 {
        WorkingDaysExtend(baslangic, mevcutTarih, tumTatiller);
        mevcutTarih := Next(mevcutTarih);
      }
    }
  }

  /** The walk's three conditions fix the end date: no two dates meet them. */
  lemma EndDateUnique(s: Date, n: int, d1: Date, d2: Date, holidays: seq<Date>)
    requires Le(s, d1) && !IsNonWorkingDay(d1, holidays) && WorkingDaysIn(s, d1, holidays) == n
    requires Le(s, d2) && !IsNonWorkingDay(d2, holidays) && WorkingDaysIn(s, d2, holidays) == n
    ensures d1 == d2
  {
    if Lt(d1, d2) {
      WorkingDaysSplit(s, d1, d2, holidays);
      EndsOnWorkingDay(Next(d1), d2, holidays);
    } else if Lt(d2, d1) {
      WorkingDaysSplit(s, d2, d1, holidays);
      EndsOnWorkingDay(Next(d2), d1, holidays);
    } else {
      DayNumberInjective(d1, d2);
    }
  }

  /** Round trip: when no holiday of the table between the start and the date
      the walk returns lies later than the year after the start's, counting
      the working days from the start to that date (against the whole holiday
      table, as izinGunSayisiHesapla does) gives back the requested number,
      and the returned date is a working day. */
  lemma CountOfEndDate(s: Date, n: int, d: Date, table: seq<Date>)
    requires Le(s, d)
    requires forall t :: t in table && Le(s, t) && Le(t, d) ==> t.year <= s.year + 1
    requires !IsNonWorkingDay(d, WalkHolidays(table, s.year))
    requires WorkingDaysIn(s, d, WalkHolidays(table, s.year)) == n
    ensures WorkingDaysIn(s, d, table) == n
    ensures !IsNonWorkingDay(d, table)
  {
    forall x: Date | Le(s, x) && Le(x, d)
      ensures x in WalkHolidays(table, s.year) <==> x in table
    {
      YearsBetween(s, x, d);
    }
    WorkingDaysAgree(s, d, WalkHolidays(table, s.year), table);
  }

  /** The walk treats a holiday two or more years after the start's year as a
      working day: only weekends stop it there. */
  lemma LaterYearsIgnored(table: seq<Date>, yil: int, d: Date)
    requires d.year >= yil + 2
    ensures IsNonWorkingDay(d, WalkHolidays(table, yil)) <==> IsWeekend(d)
  {
  }

  // ---------------------------------------------------------------------------
  // Entitlement and balance

  /** yillikIzinHakkiHesapla: 0 days below one year of service, 14 days for
      1 to 5 years, 20 days for 6 to 15 years and 26 days above 15 years. */
  function AnnualEntitlement(hizmetYili: int): (gun: int)
    ensures gun == 0 || gun == 14 || gun == 20 || gun == 26
    ensures gun == 0 <==> hizmetYili < 1
  {
    if hizmetYili < 1 then 0
    else if hizmetYili <= 5 then 14
    else if hizmetYili <= 15 then 20
    else 26
  }

  /** More years of service never give fewer days. */
  lemma EntitlementMonotone(a: int, b: int)
    requires a <= b
    ensures AnnualEntitlement(a) <= AnnualEntitlement(b)
  {
  }

  /** The tier boundaries: 5 years is still 14 days, exactly 15 years is still
      20 days, and 26 days start at 16 years. */
  lemma EntitlementBoundaries()
    ensures AnnualEntitlement(0) == 0 && AnnualEntitlement(1) == 14
    ensures AnnualEntitlement(5) == 14 && AnnualEntitlement(6) == 20
    ensures AnnualEntitlement(15) == 20 && AnnualEntitlement(16) == 26
  {
  }

  /** date-fns differenceInYears(yil-01-01, goreveBaslama): the whole years
      from the service start to January 1 of yil (negative or zero when the
      start is later). */
  function YearsOfService(goreveBaslama: Date, yil: int): (n: int)
    ensures n >= 1 <==> Le(goreveBaslama, FirstOfYear(yil - 1))
    ensures n >= 1 ==> Le(goreveBaslama, FirstOfYear(yil - n)) && Lt(FirstOfYear(yil - n - 1), goreveBaslama)
  {
    var referans := FirstOfYear(yil);
    DayNumberOrder(goreveBaslama, referans);
    DayNumberOrder(goreveBaslama, FirstOfYear(yil - 1));
    DayNumberOrder(goreveBaslama, FirstOfYear(goreveBaslama.year));
    DayNumberOrder(goreveBaslama, FirstOfYear(goreveBaslama.year + 1));
    DayNumberOrder(FirstOfYear(goreveBaslama.year - 1), goreveBaslama);
    DayNumberOrder(FirstOfYear(goreveBaslama.year), goreveBaslama);
    if Lt(goreveBaslama, referans) then
      // the last year is not full unless the start is itself a January 1
      yil - goreveBaslama.year - (if goreveBaslama.month == 1 && goreveBaslama.day == 1 then 0 else 1)
    else if goreveBaslama == referans then 0
    else yil - goreveBaslama.year
  }

  /** At least k whole years of service on January 1 of yil exactly when the
      service started on or before January 1 of yil - k. */
  lemma YearsOfServiceAtLeast(goreveBaslama: Date, yil: int, k: int)
    requires k >= 1
    ensures YearsOfService(goreveBaslama, yil) >= k <==> Le(goreveBaslama, FirstOfYear(yil - k))
  {
    DayNumberOrder(goreveBaslama, FirstOfYear(yil - k));
    DayNumberOrder(goreveBaslama, FirstOfYear(yil));
    var n := YearsOfService(goreveBaslama, yil);
    if Lt(goreveBaslama, FirstOfYear(yil)) {
      var janFirst := goreveBaslama.month == 1 && goreveBaslama.day == 1;
      assert n == yil - goreveBaslama.year - (if janFirst then 0 else 1);
    } else {
      DayNumberOrder(FirstOfYear(yil), goreveBaslama);
    }
  }

  /** findUnique on the employee table by id. */
  function FindPersonel(personeller: seq<Personel>, id: int): (r: Option<Personel>)
    ensures r.Some? ==> r.value in personeller && r.value.id == id
    ensures r.None? <==> forall p :: p in personeller ==> p.id != id
  {
    if personeller == [] then None
    else if personeller[0].id == id then Some(personeller[0])
    else FindPersonel(personeller[1..], id)
  }

  /** The filter of the aggregate query: the employee's annual-leave records
      whose start date lies in [yil-01-01, yil-12-31]. */
  predicate CountsAsAnnualLeave(k: IzinKaydi, personelId: int, yil: int) {
    && k.personelId == personelId
    && k.izinTuruId == AnnualLeaveTypeId
    && Le(FirstOfYear(yil), k.baslangicTarihi)
    && Le(k.baslangicTarihi, LastOfYear(yil))
  }

  /** The records the filter admits are those of the employee, of the
      annual-leave type, that start in calendar year yil. */
  lemma CountsAsAnnualLeaveYear(k: IzinKaydi, personelId: int, yil: int)
    ensures CountsAsAnnualLeave(k, personelId, yil)
      <==> k.personelId == personelId && k.izinTuruId == 1 && k.baslangicTarihi.year == yil
  {
    WithinYear(k.baslangicTarihi, yil);
  }

  /** `_sum.gunSayisi || 0`: the sum of gunSayisi over the admitted records, 0 for none. */
  function UsedAnnualLeave(kayitlar: seq<IzinKaydi>, personelId: int, yil: int): (r: real)
    ensures (forall k :: k in kayitlar && CountsAsAnnualLeave(k, personelId, yil) ==> k.gunSayisi >= 0.0) ==> r >= 0.0
  {
    if kayitlar == [] then 0.0
    else
      var son := kayitlar[|kayitlar| - 1];
      assert forall k :: k in kayitlar[..|kayitlar| - 1] ==> k in kayitlar;
      UsedAnnualLeave(kayitlar[..|kayitlar| - 1], personelId, yil)
        + (if CountsAsAnnualLeave(son, personelId, yil) then son.gunSayisi else 0.0)
  }

  /** The used leave of two batches of records is the sum of each batch's. */
  lemma {:induction false} UsedAnnualLeaveAppend(a: seq<IzinKaydi>, b: seq<IzinKaydi>, personelId: int, yil: int)
    ensures UsedAnnualLeave(a + b, personelId, yil)
      == UsedAnnualLeave(a, personelId, yil) + UsedAnnualLeave(b, personelId, yil)
    decreases |b|
  {
    if b != [] {
      var b' := b[..|b| - 1];
      assert (a + b)[..|a + b| - 1] == a + b';
      UsedAnnualLeaveAppend(a, b', personelId, yil);
    } else {
      assert a + b == a;
    }
  }

  /** Without a qualifying record the used leave is 0 (the `|| 0` of an empty aggregate). */
  lemma {:induction false} NoAnnualLeaveUsed(kayitlar: seq<IzinKaydi>, personelId: int, yil: int)
    requires forall k :: k in kayitlar ==> !CountsAsAnnualLeave(k, personelId, yil)
    ensures UsedAnnualLeave(kayitlar, personelId, yil) == 0.0
  {
    if kayitlar != [] {
      assert forall k :: k in kayitlar[..|kayitlar| - 1] ==> k in kayitlar;
      assert kayitlar[|kayitlar| - 1] in kayitlar;
      NoAnnualLeaveUsed(kayitlar[..|kayitlar| - 1], personelId, yil);
    }
  }

  /** Records of another employee, another leave type or another year leave the sum unchanged. */
  lemma UsedAnnualLeaveIgnores(kayitlar: seq<IzinKaydi>, k: IzinKaydi, personelId: int, yil: int)
    requires k.personelId != personelId || k.izinTuruId != AnnualLeaveTypeId || k.baslangicTarihi.year != yil
    ensures UsedAnnualLeave(kayitlar + [k], personelId, yil) == UsedAnnualLeave(kayitlar, personelId, yil)
  {
    CountsAsAnnualLeaveYear(k, personelId, yil);
    assert (kayitlar + [k])[..|kayitlar|] == kayitlar;
  }

  /** kalanIzinGunuHesapla: an unknown employee, or one without a service
      start date, gets { 0, 0, 0 }; otherwise the entitlement for the whole
      years of service on January 1 of yil, the annual leave used in yil, and
      their difference, which is not clamped at zero. */
  function RemainingLeave(personelId: int, yil: int, personeller: seq<Personel>, kayitlar: seq<IzinKaydi>): (r: IzinDurumu)
    ensures r.kalan == r.toplam as real - r.kullanilan
    ensures r.toplam == 0 || r.toplam == 14 || r.toplam == 20 || r.toplam == 26
    ensures FindPersonel(personeller, personelId).None? ==> r == IzinDurumu(0, 0.0, 0.0)
    ensures (FindPersonel(personeller, personelId).Some?
             && FindPersonel(personeller, personelId).value.goreveBaslamaTarihi.None?)
            ==> r == IzinDurumu(0, 0.0, 0.0)
  {
    match FindPersonel(personeller, personelId)
    case None => IzinDurumu(0, 0.0, 0.0)
    case Some(personel) =>
      match personel.goreveBaslamaTarihi
      case None => IzinDurumu(0, 0.0, 0.0)
      case Some(goreveBaslama) =>
        var toplamHak := AnnualEntitlement(YearsOfService(goreveBaslama, yil));
        var kullanilan := UsedAnnualLeave(kayitlar, personelId, yil);
        IzinDurumu(toplamHak, kullanilan, toplamHak as real - kullanilan)
  }

  /** For a known employee with a start date, the balance's total is the
      entitlement of the years of service and its used part is the sum of the
      year's annual-leave records; the entitlement is positive exactly when
      the service started on or before January 1 of the previous year. */
  lemma RemainingLeaveOfKnownEmployee(personelId: int, yil: int, personeller: seq<Personel>, kayitlar: seq<IzinKaydi>, p: Personel, start: Date)
    requires FindPersonel(personeller, personelId) == Some(p) && p.goreveBaslamaTarihi == Some(start)
    ensures RemainingLeave(personelId, yil, personeller, kayitlar).toplam == AnnualEntitlement(YearsOfService(start, yil))
    ensures RemainingLeave(personelId, yil, personeller, kayitlar).kullanilan == UsedAnnualLeave(kayitlar, personelId, yil)
    ensures RemainingLeave(personelId, yil, personeller, kayitlar).toplam > 0 <==> Le(start, FirstOfYear(yil - 1))
  {
    YearsOfServiceAtLeast(start, yil, 1);
  }

  /** A service start of 1 June 2019 gives five whole years on 1 January 2025,
      hence 14 days; with 8 days of annual leave taken in March 2025 the
      balance is { 14, 8, 6 }. */
  lemma BalanceExample()
    ensures YearsOfService(Ymd(2019, 6, 1), 2025) == 5
    ensures RemainingLeave(7, 2025,
              [Personel(7, "1001", "Ayşe", "Yılmaz", None, None, Some(Ymd(2019, 6, 1)), true)],
              [IzinKaydi(7, AnnualLeaveTypeId, "Yıllık İzin", Ymd(2025, 3, 3), Ymd(2025, 3, 12), 8.0)])
            == IzinDurumu(14, 8.0, 6.0)
  {
    var k := IzinKaydi(7, AnnualLeaveTypeId, "Yıllık İzin", Ymd(2025, 3, 3), Ymd(2025, 3, 12), 8.0);
    DayNumberOrder(Ymd(2019, 6, 1), FirstOfYear(2025));
    WithinYear(k.baslangicTarihi, 2025);
    var p := Personel(7, "1001", "Ayşe", "Yılmaz", None, None, Some(Ymd(2019, 6, 1)), true);
    assert FindPersonel([p], 7) == Some(p);
    assert AnnualEntitlement(YearsOfService(Ymd(2019, 6, 1), 2025)) == 14;
    assert CountsAsAnnualLeave(k, 7, 2025);
    assert [k][..0] == [];
    assert UsedAnnualLeave([k], 7, 2025) == 8.0;
  }
}
