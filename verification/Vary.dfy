/** date -v: the fields of a broken-down time are varied with carries and borrows. */
module Vary {
  import opened Calendar

  datatype Kind = Plus | Minus | Set

  class Tm {
    var year: int     // since 1900
    var mon: int      // from 0
    var mday: int
    var hour: int
    var min: int
    var sec: int
    var wday: int

    ghost predicate DayOk()
      reads this
    {
      DateOk(year + 1900, mon, mday)
    }

    ghost predicate Valid()
      reads this
    {
      DayOk() && 0 <= hour < 24 && 0 <= min < 60 && 0 <= sec < 60
    }

    ghost function Day(): int
      requires 0 <= mon < 12
      reads this
    {
      DayNumber(year + 1900, mon, mday)
    }

    ghost function Months(): int
      reads this
    {
      year * 12 + mon
    }

    ghost function Hours(): int
      requires 0 <= mon < 12
      reads this
    {
      Day() * 24 + hour
    }

    ghost function Minutes(): int
      requires 0 <= mon < 12
      reads this
    {
      Hours() * 60 + min
    }

    /** Seconds on the linear clock. */
    ghost function Seconds(): int
      requires 0 <= mon < 12
      reads this
    {
      Minutes() * 60 + sec
    }

    method DaysInMonth() returns (n: int)
      ensures n == if 0 <= mon < 12 then MonthDays(year + 1900, mon) else 0
    {
      var y := year + 1900;
      if mon == 1 {
        if y % 400 == 0 {
          return 29;
        } else if y % 100 == 0 {
          return 28;
        } else if y % 4 == 0 {
          return 29;
        } else {
          return 28;
        }
      } else if 0 <= mon < 12 {
        return [31, 0, 31, 30, 31, 30, 31, 31, 30, 31, 30, 31][mon];
      }
      return 0;
    }

    method AdjYear(kind: Kind, val: int)
      modifies `year
      ensures kind == Plus ==> year == old(year) + val
      ensures kind == Minus ==> year == old(year) - val
      ensures kind == Set && 69 <= val <= 1900 ==> year == val
      ensures kind == Set && 0 <= val < 69 ==> year + 1900 == 2000 + val
      ensures kind == Set && val > 1900 ==> year + 1900 == val
    {
      match kind {
        case Plus => year := year + val;
        case Minus => year := year - val;
        case Set =>
          year := val;
          if year < 69 {
            year := year + 100;
          } else if year > 1900 {
            year := year - 1900;
          }
      }
    }

    method MonLater(val: nat)
      requires 0 <= mon < 12
      modifies `year, `mon
      ensures 0 <= mon < 12 && Months() == old(Months()) + val
    {
      var v := val;
      if v != 0 {
        AdjYear(Plus, (mon + v) / 12);
        v := v % 12;
        mon := mon + v;
        if mon > 11 {
          mon := mon - 12;
        }
      }
    }

    method MonEarlier(val: nat)
      requires 0 <= mon < 12
      modifies `year, `mon
      ensures 0 <= mon < 12 && Months() == old(Months()) - val
    {
      var v := val;
      if v != 0 {
        AdjYear(Minus, v / 12);
        v := v % 12;
        if v > mon {
          AdjYear(Minus, 1);
          v := v - 12;
        }
        mon := mon - v;
      }
    }

    /** Months count on a line of their own; named months are the nearest of that name, this month included. */
    method AdjMon(kind: Kind, val: int, istext: bool) returns (ok: bool)
      requires 0 <= mon < 12 && (istext ==> 1 <= val <= 12)
      modifies `year, `mon
      ensures 0 <= mon < 12
      ensures ok <==> val >= 0 && (kind == Set ==> 1 <= val <= 12)
      ensures !ok ==> year == old(year) && mon == old(mon)
      ensures ok && kind == Plus && !istext ==> Months() == old(Months()) + val
      ensures ok && kind == Minus && !istext ==> Months() == old(Months()) - val
      ensures ok && kind == Plus && istext ==> mon == val - 1 && old(Months()) <= Months() < old(Months()) + 12
      ensures ok && kind == Minus && istext ==> mon == val - 1 && old(Months()) - 12 < Months() <= old(Months())
      ensures ok && kind == Set ==> mon == val - 1 && year == old(year)
    {
      if val < 0 {
        return false;
      }
      var v := val;
      match kind {
        case Plus =>
          if istext {
            v := if v <= mon then v + (11 - mon) else v - (mon + 1);
          }
          MonLater(v);
        case Minus =>
          if istext {
            v := if v - 1 > mon then 13 - v + mon else mon - v + 1;
          }
          MonEarlier(v);
        case Set =>
          if v > 12 || v < 1 {
            return false;
          }
          mon := v - 1;
      }
      ok := true;
    }

    /** Month by month to the end of each, and then on within a month. */
    method DayLater(val: nat)
      requires DayOk()
      modifies `year, `mon, `mday
      ensures DayOk() && Day() == old(Day()) + val
    {
      var v := val;
      while v != 0
        invariant DayOk() && v >= 0 && Day() + v == old(Day()) + val
      {
        var lmdays := DaysInMonth();
        if v > lmdays - mday {
          MonthNext(year + 1900, mon);
          v := v - (lmdays - mday + 1);
          mday := 1;
          var ok := AdjMon(Plus, 1, false);
        } else {
          mday := mday + v;
          v := 0;
        }
      }
    }

    method DayEarlier(val: nat)
      requires DayOk()
      modifies `year, `mon, `mday
      ensures DayOk() && Day() == old(Day()) - val
    {
      var v := val;
      while v != 0
        invariant DayOk() && v >= 0 && Day() - v == old(Day()) - val
      {
        if v >= mday {
          v := v - mday;
          mday := 1;
          var ok := AdjMon(Minus, 1, false);
          MonthNext(year + 1900, mon);
          mday := DaysInMonth();
        } else {
          mday := mday - v;
          v := 0;
        }
      }
    }

    method AdjDay(kind: Kind, val: int) returns (ok: bool)
      requires DayOk() && (kind != Set ==> val >= 0)
      modifies `year, `mon, `mday
      ensures DayOk()
      ensures kind == Plus ==> ok && Day() == old(Day()) + val
      ensures kind == Minus ==> ok && Day() == old(Day()) - val
      ensures kind == Set ==> (ok <==> DateOk(year + 1900, mon, val))
      ensures kind == Set ==> year == old(year) && mon == old(mon) && mday == if ok then val else old(mday)
    {
      match kind {
        case Plus => DayLater(val);
        case Minus => DayEarlier(val);
        case Set =>
          var lmdays := DaysInMonth();
          if 0 < val <= lmdays {
            mday := val;
          } else {
            return false;
          }
      }
      ok := true;
    }

    method HourLater(val: nat)
      requires DayOk() && 0 <= hour < 24
      modifies `year, `mon, `mday, `hour
      ensures DayOk() && 0 <= hour < 24 && Hours() == old(Hours()) + val
    {
      if val != 0 {
        var days := (hour + val) / 24;
        var v := val % 24;
        hour := hour + v;
        hour := hour % 24;
        var ok := AdjDay(Plus, days);
      }
    }

    method HourEarlier(val: nat)
      requires DayOk() && 0 <= hour < 24
      modifies `year, `mon, `mday, `hour
      ensures DayOk() && 0 <= hour < 24 && Hours() == old(Hours()) - val
    {
      if val != 0 {
        var days := val / 24;
        var v := val % 24;
        if v > hour {
          days := days + 1;
          v := v - 24;
        }
        hour := hour - v;
        var ok := AdjDay(Minus, days);
      }
    }

    method AdjHour(kind: Kind, val: int) returns (ok: bool)
      requires DayOk() && 0 <= hour < 24
      modifies `year, `mon, `mday, `hour
      ensures DayOk()
      ensures val < 0 ==> !ok
      ensures val >= 0 && kind == Plus ==> ok && 0 <= hour < 24 && Hours() == old(Hours()) + val
      ensures val >= 0 && kind == Minus ==> ok && 0 <= hour < 24 && Hours() == old(Hours()) - val
      ensures val >= 0 && kind == Set ==> (ok <==> val < 24) && Day() == old(Day()) && hour == if ok then val else old(hour)
    {
      if val < 0 {
        return false;
      }
      match kind {
        case Plus => HourLater(val);
        case Minus => HourEarlier(val);
        case Set =>
          if val > 23 {
            return false;
          }
          hour := val;
      }
      ok := true;
    }

    method MinLater(val: nat)
      requires DayOk() && 0 <= hour < 24 && 0 <= min < 60
      modifies `year, `mon, `mday, `hour, `min
      ensures DayOk() && 0 <= hour < 24 && 0 <= min < 60 && Minutes() == old(Minutes()) + val
    {
      var v := val;
      if v != 0 {
        Carried(min, v);
        var ok := AdjHour(Plus, (min + v) / 60);
        v := v % 60;
        min := min + v;
        if min > 59 {
          min := min - 60;
        }
      }
    }

    method MinEarlier(val: nat)
      requires DayOk() && 0 <= hour < 24 && 0 <= min < 60
      modifies `year, `mon, `mday, `hour, `min
      ensures DayOk() && 0 <= hour < 24 && 0 <= min < 60 && Minutes() == old(Minutes()) - val
    {
      var v := val;
      if v != 0 {
        Borrowed(min, v);
        var ok := AdjHour(Minus, v / 60);
        v := v % 60;
        if v > min {
          ok := AdjHour(Minus, 1);
          v := v - 60;
        }
        min := min - v;
      }
    }

    method AdjMin(kind: Kind, val: int) returns (ok: bool)
      requires DayOk() && 0 <= hour < 24 && 0 <= min < 60
      modifies `year, `mon, `mday, `hour, `min
      ensures DayOk()
      ensures val < 0 ==> !ok
      ensures val >= 0 && kind == Plus ==> ok && 0 <= hour < 24 && 0 <= min < 60 && Minutes() == old(Minutes()) + val
      ensures val >= 0 && kind == Minus ==> ok && 0 <= hour < 24 && 0 <= min < 60 && Minutes() == old(Minutes()) - val
      ensures val >= 0 && kind == Set ==> (ok <==> val < 60) && Hours() == old(Hours()) && min == if ok then val else old(min)
    {
      if val < 0 {
        return false;
      }
      match kind {
        case Plus => MinLater(val);
        case Minus => MinEarlier(val);
        case Set =>
          if val > 59 {
            return false;
          }
          min := val;
      }
      ok := true;
    }

    method SecLater(val: nat)
      requires Valid()
      modifies `year, `mon, `mday, `hour, `min, `sec
      ensures Valid() && Seconds() == old(Seconds()) + val
    {
      var v := val;
      if v != 0 {
        Carried(sec, v);
        var ok := AdjMin(Plus, (sec + v) / 60);
        v := v % 60;
        sec := sec + v;
        if sec > 59 {
          sec := sec - 60;
        }
      }
    }

    method SecEarlier(val: nat)
      requires Valid()
      modifies `year, `mon, `mday, `hour, `min, `sec
      ensures Valid() && Seconds() == old(Seconds()) - val
    {
      var v := val;
      if v != 0 {
        Borrowed(sec, v);
        var ok := AdjMin(Minus, v / 60);
        v := v % 60;
        if v > sec {
          ok := AdjMin(Minus, 1);
          v := v - 60;
        }
        sec := sec - v;
      }
    }

    /** Exactly val seconds later or earlier. */
    method AdjSec(kind: Kind, val: int) returns (ok: bool)
      requires Valid()
      modifies `year, `mon, `mday, `hour, `min, `sec
      ensures val < 0 ==> !ok
      ensures val >= 0 && kind == Plus ==> ok && Valid() && Seconds() == old(Seconds()) + val
      ensures val >= 0 && kind == Minus ==> ok && Valid() && Seconds() == old(Seconds()) - val
      ensures val >= 0 && kind == Set ==> (ok <==> val < 60) && DayOk() && Minutes() == old(Minutes()) && sec == if ok then val else old(sec)
    {
      if val < 0 {
        return false;
      }
      match kind {
        case Plus => SecLater(val);
        case Minus => SecEarlier(val);
        case Set =>
          if val > 59 {
            return false;
          }
          sec := val;
      }
      ok := true;
    }

    /** Weeks by number; named days are the nearest of that name, this day included, or that of this week. */
    method AdjWday(kind: Kind, val: int, istext: bool) returns (ok: bool)
      requires DayOk() && wday == Weekday(Day()) && (istext ==> val <= 6)
      modifies `year, `mon, `mday
      ensures DayOk()
      ensures ok <==> val >= 0 && (kind == Set ==> val <= 6)
      ensures !ok ==> Day() == old(Day())
      ensures ok && kind == Plus && !istext ==> Day() == old(Day()) + 7 * val
      ensures ok && kind == Minus && !istext ==> Day() == old(Day()) - 7 * val
      ensures ok && kind == Plus && istext ==> Weekday(Day()) == val && old(Day()) <= Day() < old(Day()) + 7
      ensures ok && kind == Minus && istext ==> Weekday(Day()) == val && old(Day()) - 7 < Day() <= old(Day())
      ensures ok && kind == Set ==> Weekday(Day()) == val && Day() - val == old(Day() - wday)
    {
      if val < 0 {
        return false;
      }
      var v := val;
      match kind {
        case Plus =>
          v := if !istext then v * 7 else if v < wday then 7 - wday + v else v - wday;
          NamedAhead(Day(), wday, val);
          if v == 0 {
            return true;
          }
          ok := AdjDay(Plus, v);
        case Minus =>
          v := if !istext then v * 7 else if v > wday then 7 - v + wday else wday - v;
          NamedBehind(Day(), wday, val);
          if v == 0 {
            return true;
          }
          ok := AdjDay(Minus, v);
        case Set =>
          WeekdayMoved(Day(), v - wday);
          if v < wday {
            ok := AdjDay(Minus, wday - v);
          } else if v > 6 {
            return false;
          } else if v > wday {
            ok := AdjDay(Plus, v - wday);
          } else {
            ok := true;
          }
      }
    }

    /** Later and back again, or the other way round, changes nothing. */
    method ThereAndBack(first: Kind, val: nat)
      requires Valid() && first != Set
      modifies `year, `mon, `mday, `hour, `min, `sec
      ensures year == old(year) && mon == old(mon) && mday == old(mday)
      ensures hour == old(hour) && min == old(min) && sec == old(sec)
    {
      var ok := AdjSec(first, val);
      ok := AdjSec(if first == Plus then Minus else Plus, val);
      DayUnique(year + 1900, mon, mday, old(year) + 1900, old(mon), old(mday));
    }

    method ThereAndBackMinutes(first: Kind, val: nat)
      requires DayOk() && 0 <= hour < 24 && 0 <= min < 60 && first != Set
      modifies `year, `mon, `mday, `hour, `min
      ensures year == old(year) && mon == old(mon) && mday == old(mday)
      ensures hour == old(hour) && min == old(min)
    {
      var ok := AdjMin(first, val);
      ok := AdjMin(if first == Plus then Minus else Plus, val);
      DayUnique(year + 1900, mon, mday, old(year) + 1900, old(mon), old(mday));
    }

    method ThereAndBackHours(first: Kind, val: nat)
      requires DayOk() && 0 <= hour < 24 && first != Set
      modifies `year, `mon, `mday, `hour
      ensures year == old(year) && mon == old(mon) && mday == old(mday) && hour == old(hour)
    {
      var ok := AdjHour(first, val);
      ok := AdjHour(if first == Plus then Minus else Plus, val);
      DayUnique(year + 1900, mon, mday, old(year) + 1900, old(mon), old(mday));
    }

    method ThereAndBackDays(first: Kind, val: nat)
      requires DayOk() && first != Set
      modifies `year, `mon, `mday
      ensures year == old(year) && mon == old(mon) && mday == old(mday)
    {
      var ok := AdjDay(first, val);
      ok := AdjDay(if first == Plus then Minus else Plus, val);
      DayUnique(year + 1900, mon, mday, old(year) + 1900, old(mon), old(mday));
    }

    /** mktime: accepts the time, or fails and leaves it alone. */
    method Mktime(accepts: Accepts) returns (ok: bool)
      ensures ok == accepts(year, mon, mday, hour, min, sec)
    {
      ok := accepts(year, mon, mday, hour, min, sec);
    }

    /**
     While mktime fails the time moves by hours, in one direction, to the first hour that it accepts; it stops, as hours
     lead out of the years 1969 to 2037.
     */
    method Domktime(kind: Kind, accepts: Accepts) returns (ok: bool)
      requires Valid()
      modifies `year, `mon, `mday, `hour
      ensures Valid() && min == old(min) && sec == old(sec)
      ensures ok == accepts(year, mon, mday, hour, min, sec)
      ensures !ok ==> year <= 68 || year >= 138
      ensures if kind == Minus then Seconds() <= old(Seconds()) else old(Seconds()) <= Seconds()
      ensures (Seconds() - old(Seconds())) % 3600 == 0
      ensures NonePassed(accepts, old(Hours()), Hours(), min, sec)
    {
      hide NonePassed, DayNumber, YearStart, MonthStart, MonthDays;
      ok := Mktime(accepts);
      NonePassedYet(accepts, Hours(), min, sec);
      while !ok && year > 68 && year < 138
        invariant Valid() && ok == accepts(year, mon, mday, hour, min, sec)
        invariant (Hours() - old(Hours())) * (if kind == Minus then -1 else 1) >= 0
        invariant NonePassed(accepts, old(Hours()), Hours(), min, sec)
        decreases if kind == Minus then Hours() - YearStart(1969) * 24 else YearStart(2038) * 24 + 24 - Hours()
      {
        InYears(year + 1900, mon, mday, 1969, 2038);
        ghost var y, m, d, h, was := year, mon, mday, hour, Hours();
        var moved := AdjHour(if kind == Minus then Minus else Plus, 1);
        PassedOneMore(accepts, old(Hours()), was, Hours(), min, sec, y, m, d, h);
        ok := Mktime(accepts);
      }
    }
  }

  /** What mktime says of a time, given by its fields. */
  type Accepts = (int, int, int, int, int, int) -> bool

  ghost predicate PassedAt(accepts: Accepts, min: int, sec: int, y: int, m: int, d: int, h: int) {
    accepts(y, m, d, h, min, sec)
  }

  ghost predicate Between(from: int, x: int, to: int) {
    from <= x < to || to < x <= from
  }

  /** Of the hours from one to the other, but for the last, none was accepted. */
  ghost predicate NonePassed(accepts: Accepts, from: int, to: int, min: int, sec: int) {
    forall y, m, d, h :: DateOk(y + 1900, m, d) && 0 <= h < 24 && Between(from, DayNumber(y + 1900, m, d) * 24 + h, to) ==>
      !PassedAt(accepts, min, sec, y, m, d, h)
  }

  lemma NonePassedYet(accepts: Accepts, from: int, min: int, sec: int)
    ensures NonePassed(accepts, from, from, min, sec)
  {
  }

  lemma PassedOneMore(accepts: Accepts, from: int, was: int, to: int, min: int, sec: int, y: int, m: int, d: int, h: int)
    requires NonePassed(accepts, from, was, min, sec) && !accepts(y, m, d, h, min, sec)
    requires DateOk(y + 1900, m, d) && 0 <= h < 24 && was == DayNumber(y + 1900, m, d) * 24 + h
    requires (to == was + 1 && from <= was) || (to == was - 1 && was <= from)
    ensures NonePassed(accepts, from, to, min, sec)
  {
    forall y', m', d', h' | DateOk(y' + 1900, m', d') && 0 <= h' < 24 && Between(from, DayNumber(y' + 1900, m', d') * 24 + h', to)
      ensures !PassedAt(accepts, min, sec, y', m', d', h')
    {
      if DayNumber(y' + 1900, m', d') * 24 + h' == was {
        DayUnique(y + 1900, m, d, y' + 1900, m', d');
      } else {
        assert Between(from, DayNumber(y' + 1900, m', d') * 24 + h', was);
      }
    }
  }

  /** What 60 goes into is passed on; the rest is taken over, less 60 if it has become too much. */
  lemma Carried(field: int, val: int)
    requires 0 <= field < 60 && val >= 0
    ensures var rest := field + val % 60;
            (field + val) / 60 * 60 + (if rest > 59 then rest - 60 else rest) == field + val
  {
  }

  lemma Borrowed(field: int, val: int)
    requires 0 <= field < 60 && val >= 0
    ensures var rest := field - val % 60;
            (if rest < 0 then rest + 60 else rest) - (val / 60 + if rest < 0 then 1 else 0) * 60 == field - val
  {
  }

  lemma NamedAhead(day: int, wday: int, val: int)
    requires wday == Weekday(day)
    ensures 0 <= val <= 6 ==> Weekday(day + if val < wday then 7 - wday + val else val - wday) == val
  {
    WeekdayMoved(day, if val < wday then 7 - wday + val else val - wday);
  }

  lemma NamedBehind(day: int, wday: int, val: int)
    requires wday == Weekday(day)
    ensures 0 <= val <= 6 ==> Weekday(day - if val > wday then 7 - val + wday else wday - val) == val
  {
    WeekdayMoved(day, -(if val > wday then 7 - val + wday else wday - val));
  }

  lemma InYears(year: int, mon: int, mday: int, lo: int, hi: int)
    requires DateOk(year, mon, mday) && lo <= year < hi
    ensures YearStart(lo) < DayNumber(year, mon, mday) <= YearStart(hi)
  {
    MonthStartBounds(year, mon);
    YearStartOrder(year, hi);
    if lo < year {
      YearStartOrder(lo, year);
      MonthStartPositive(lo, 12);
    }
  }
}
