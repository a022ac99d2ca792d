/** The dates of the leap-second table (src/ESLeapSecond.cpp), by the calendar of src/ESCalendar.cpp. */
module LeapSecondDates {
  import opened Calendar
  import opened HybridDates
  import opened LeapSecond

  /** The i-th event begins at midnight of the first of a month. */
  predicate BeginsIn(i: nat, year: int, month: int) {
    i < |LEAP_SECOND_TABLE| && LEAP_SECOND_TABLE[i].beginning == MidnightOf(Date(1, year, month, 1))
  }

  /** In the Gregorian part of the calendar, midnight is counted from the day number. */
  lemma MidnightCounts(d: Date)
    requires ValidDate(d) && d.era == 1 && d.year > 1582
    ensures MidnightOf(d) == (GregorianCount(d) - 730791) as real * 86400.0
  {
    InstantOfDate(d, 0.0);
  }

  /** Days since the first of January 2001 to the first of January and of July, in the years without an exception. */
  lemma InJanuary(year: int)
    requires 1901 <= year <= 2099
    ensures MidnightOf(Date(1, year, 1, 1)) == (365 * (year - 2001) + (year - 1) / 4 - 500) as real * 86400.0
  {
    MidnightCounts(Date(1, year, 1, 1));
    hide MidnightOf;
    CountFrom(year - 1);
  }

  lemma InJuly(year: int)
    requires 1901 <= year <= 2099
    ensures MidnightOf(Date(1, year, 7, 1)) == (365 * (year - 2001) + year / 4 - 319) as real * 86400.0
  {
    MidnightCounts(Date(1, year, 7, 1));
    hide MidnightOf;
    CountFrom(year);
  }

  lemma CountFrom(marchYear: int)
    requires 1900 <= marchYear <= 2099
    ensures 146097 * (marchYear / 100) / 4 + 36525 * (marchYear % 100) / 100 == 365 * marchYear + marchYear / 4 - 15
  {
    if marchYear < 2000 {
      assert marchYear / 100 == 19 && marchYear % 100 == marchYear - 1900;
    } else {
      assert marchYear / 100 == 20 && marchYear % 100 == marchYear - 2000;
    }
  }

  lemma StartsInJanuary(i: nat, year: int)
    requires i < |LEAP_SECOND_TABLE| && 1901 <= year <= 2099
    requires LEAP_SECOND_TABLE[i].beginning == (365 * (year - 2001) + (year - 1) / 4 - 500) as real * 86400.0
    ensures BeginsIn(i, year, 1)
  {
    hide MidnightOf;
    InJanuary(year);
  }

  lemma StartsInJuly(i: nat, year: int)
    requires i < |LEAP_SECOND_TABLE| && 1901 <= year <= 2099
    requires LEAP_SECOND_TABLE[i].beginning == (365 * (year - 2001) + year / 4 - 319) as real * 86400.0
    ensures BeginsIn(i, year, 7)
  {
    hide MidnightOf;
    InJuly(year);
  }

  /** The months of the events, from the table's first to its last. */
  lemma DatesTo1976()
    ensures BeginsIn(0, 1972, 7) && BeginsIn(1, 1973, 1) && BeginsIn(2, 1974, 1)
    ensures BeginsIn(3, 1975, 1) && BeginsIn(4, 1976, 1)
  {
    hide BeginsIn;
    StartsInJuly(0, 1972);
    StartsInJanuary(1, 1973);
    StartsInJanuary(2, 1974);
    StartsInJanuary(3, 1975);
    StartsInJanuary(4, 1976);
  }

  lemma DatesTo1981()
    ensures BeginsIn(5, 1977, 1) && BeginsIn(6, 1978, 1) && BeginsIn(7, 1979, 1)
    ensures BeginsIn(8, 1980, 1) && BeginsIn(9, 1981, 7)
  {
    hide BeginsIn;
    StartsInJanuary(5, 1977);
    StartsInJanuary(6, 1978);
    StartsInJanuary(7, 1979);
    StartsInJanuary(8, 1980);
    StartsInJuly(9, 1981);
  }

  lemma DatesTo1993()
    ensures BeginsIn(10, 1982, 7) && BeginsIn(11, 1983, 7) && BeginsIn(12, 1985, 7)
    ensures BeginsIn(13, 1988, 1) && BeginsIn(14, 1990, 1) && BeginsIn(15, 1991, 1)
    ensures BeginsIn(16, 1992, 7) && BeginsIn(17, 1993, 7)
  {
    hide BeginsIn;
    StartsInJuly(10, 1982);
    StartsInJuly(11, 1983);
    StartsInJuly(12, 1985);
    StartsInJanuary(13, 1988);
    StartsInJanuary(14, 1990);
    StartsInJanuary(15, 1991);
    StartsInJuly(16, 1992);
    StartsInJuly(17, 1993);
  }

  lemma DatesTo2017()
    ensures BeginsIn(18, 1994, 7) && BeginsIn(19, 1996, 1) && BeginsIn(20, 1997, 7)
    ensures BeginsIn(21, 1999, 1) && BeginsIn(22, 2006, 1) && BeginsIn(23, 2009, 1)
    ensures BeginsIn(24, 2012, 7) && BeginsIn(25, 2015, 7) && BeginsIn(26, 2017, 1)
  {
    hide BeginsIn;
    StartsInJuly(18, 1994);
    StartsInJanuary(19, 1996);
    StartsInJuly(20, 1997);
    StartsInJanuary(21, 1999);
    StartsInJanuary(22, 2006);
    StartsInJanuary(23, 2009);
    StartsInJuly(24, 2012);
    StartsInJuly(25, 2015);
    StartsInJanuary(26, 2017);
  }
}
