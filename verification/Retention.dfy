/** Which backups pruning leaves, and what that means over a run of backups. */
module Retention {
  import opened Text
  import opened Order

  const LIMIT := 16

  /** `left` is the protected name with the largest others, at most `LIMIT` names in all. */
  ghost predicate IsRetained(names: set<string>, kept: string, left: set<string>) {
    && left <= names
    && kept in left
    && |left| == (if |names| <= LIMIT then |names| else LIMIT)
    && forall x, y :: x in left && x != kept && y in names - left ==> Less(y, x)
  }

  /** The names and the protected one determine what is left. */
  lemma RetainedUnique(names: set<string>, kept: string, left: set<string>, left': set<string>)
    requires IsRetained(names, kept, left) && IsRetained(names, kept, left')
    ensures left == left'
  {
    if left <= left' {
      EqualSizes(left, left');
    } else if left' <= left {
      EqualSizes(left', left);
    } else {
      var x :| x in left && x !in left';
      var y :| y in left' && y !in left;
      LessAsymmetric(x, y);
    }
  }

  lemma EqualSizes<T>(a: set<T>, b: set<T>)
    requires |a| == |b| && a <= b
    ensures a == b
  {
    assert b == a + (b - a);
  }

  // ----- names that sort by time -----

  /** `n` in exactly `width` decimal digits. */
  function Fixed(n: nat, width: nat): (s: string)
    ensures |s| == width
  {
    if width == 0 then "" else Fixed(n / 10, width - 1) + [Digit(n % 10)]
  }

  lemma {:induction false} FixedOrder(n: nat, m: nat, width: nat)
    requires n < m < Pow10(width)
    ensures Less(Fixed(n, width), Fixed(m, width))
  {
    var a, b := Fixed(n / 10, width - 1), Fixed(m / 10, width - 1);
    if n / 10 == m / 10 {
      assert Less([Digit(n % 10)], [Digit(m % 10)]);
      LessAfterPrefix(a, [Digit(n % 10)], [Digit(m % 10)]);
    } else {
      FixedOrder(n / 10, m / 10, width - 1);
      LessByPrefix(a, b, [Digit(n % 10)], [Digit(m % 10)]);
    }
  }

  /** A number, its width and the text that follows it. */
  datatype Field = Field(value: nat, width: nat, mark: string)

  function Stamp(fields: seq<Field>): string {
    if fields == [] then ""
    else Fixed(fields[0].value, fields[0].width) + fields[0].mark + Stamp(fields[1..])
  }

  predicate SameLayout(a: seq<Field>, b: seq<Field>) {
    && |a| == |b|
    && forall i :: 0 <= i < |a| ==>
      && a[i].width == b[i].width && a[i].mark == b[i].mark
      && a[i].value < Pow10(a[i].width) && b[i].value < Pow10(b[i].width)
  }

  /** The first field that differs decides. */
  predicate Earlier(a: seq<Field>, b: seq<Field>)
    requires |a| == |b|
  {
    a != [] &&
    (a[0].value < b[0].value || (a[0].value == b[0].value && Earlier(a[1..], b[1..])))
  }

  lemma StampUnfold(a: seq<Field>, x: string)
    requires a != []
    ensures Stamp(a) + x == Fixed(a[0].value, a[0].width) + (a[0].mark + (Stamp(a[1..]) + x))
  {
    hide Fixed;
    Regroup(Fixed(a[0].value, a[0].width), a[0].mark, Stamp(a[1..]), x);
  }

  lemma Regroup(a: string, b: string, c: string, d: string)
    ensures a + b + c + d == a + (b + (c + d))
  {
  }

  lemma {:induction false} StampOrder(a: seq<Field>, b: seq<Field>, x: string, y: string)
    requires SameLayout(a, b) && Earlier(a, b)
    ensures Less(Stamp(a) + x, Stamp(b) + y)
  {
    var fa, fb := Fixed(a[0].value, a[0].width), Fixed(b[0].value, b[0].width);
    var mark, sa, sb := a[0].mark, Stamp(a[1..]) + x, Stamp(b[1..]) + y;
    StampUnfold(a, x);
    StampUnfold(b, y);
    if a[0].value < b[0].value {
      FixedOrder(a[0].value, b[0].value, a[0].width);
      LessByPrefix(fa, fb, mark + sa, mark + sb);
    } else {
      StampOrder(a[1..], b[1..], x, y);
      LessAfterPrefix(mark, sa, sb);
      LessAfterPrefix(fa, mark + sa, mark + sb);
    }
  }

  /** A UTC instant of the years 0 to 9999. */
  datatype Instant = Instant(year: nat, month: nat, day: nat, hour: nat, minute: nat, second: nat, nano: nat) {
    predicate Valid() {
      && year < 10000 && 1 <= month <= 12 && 1 <= day <= 31
      && hour < 24 && minute < 60 && second < 60 && nano < 1_000_000_000
    }

    /** The layout `20060102T150405.000000000Z`. */
    function Fields(): seq<Field> {
      [Field(year, 4, ""), Field(month, 2, ""), Field(day, 2, "T"),
       Field(hour, 2, ""), Field(minute, 2, ""), Field(second, 2, "."), Field(nano, 9, "Z")]
    }

    predicate Before(other: Instant) {
      Earlier(Fields(), other.Fields())
    }
  }

  /** `newBackupName`. */
  function BackupName(now: Instant, target: string, token: string): string {
    Stamp(now.Fields()) + "-" + target + "-" + token + ".txt"
  }

  lemma Widths()
    ensures Pow10(2) == 100 && Pow10(4) == 10000 && Pow10(9) == 1_000_000_000
  {
    assert Pow10(4) == 10 * Pow10(3) == 100 * Pow10(2);
    assert Pow10(5) == 10 * Pow10(4);
    assert Pow10(7) == 10 * Pow10(6) == 100 * Pow10(5);
    assert Pow10(9) == 10 * Pow10(8) == 100 * Pow10(7);
  }

  lemma BackupNamesSortByTime(a: Instant, b: Instant, ta: string, tb: string, ka: string, kb: string)
    requires a.Valid() && b.Valid() && a.Before(b)
    ensures Less(BackupName(a, ta, ka), BackupName(b, tb, kb))
  {
    hide Stamp, Less;
    Widths();
    var x, y := "-" + ta + "-" + ka + ".txt", "-" + tb + "-" + kb + ".txt";
    StampOrder(a.Fields(), b.Fields(), x, y);
    assert BackupName(a, ta, ka) == Stamp(a.Fields()) + x;
    assert BackupName(b, tb, kb) == Stamp(b.Fields()) + y;
  }

  /** The digits of fixed width are those of the number. */
  lemma {:induction false} FixedValue(n: nat, width: nat)
    requires n < Pow10(width)
    ensures AllDigits(Fixed(n, width)) && DecimalValue(Fixed(n, width)) == n
  {
    if width > 0 {
      var front := Fixed(n / 10, width - 1);
      FixedValue(n / 10, width - 1);
      assert Fixed(n, width)[..width - 1] == front;
    }
  }

  /** The layout of a backup's name. */
  lemma NameLayout(now: Instant, target: string, token: string)
    ensures BackupName(now, target, token)
         == Fixed(now.year, 4) + (Fixed(now.month, 2) + (Fixed(now.day, 2) + ("T" + (Fixed(now.hour, 2)
            + (Fixed(now.minute, 2) + (Fixed(now.second, 2) + ("." + (Fixed(now.nano, 9)
            + ("Z" + ("-" + target + "-" + token + ".txt"))))))))))
  {
    hide Fixed, Stamp;
    var x := "-" + target + "-" + token + ".txt";
    var nano := [Field(now.nano, 9, "Z")];
    var second := [Field(now.second, 2, ".")] + nano;
    var minute := [Field(now.minute, 2, "")] + second;
    var hour := [Field(now.hour, 2, "")] + minute;
    var day := [Field(now.day, 2, "T")] + hour;
    var month := [Field(now.month, 2, "")] + day;
    StampNext(Field(now.year, 4, ""), month, x);
    StampNext(Field(now.month, 2, ""), day, x);
    StampNext(Field(now.day, 2, "T"), hour, x);
    StampNext(Field(now.hour, 2, ""), minute, x);
    StampNext(Field(now.minute, 2, ""), second, x);
    StampNext(Field(now.second, 2, "."), nano, x);
    StampNext(Field(now.nano, 9, "Z"), [], x);
    assert nano + [] == nano && [Field(now.nano, 9, "Z")] + [] == nano;
    NoMoreFields(x);
    assert now.Fields() == [Field(now.year, 4, "")] + month;
    NameIsStamp(now, target, token);
  }

  lemma NameIsStamp(now: Instant, target: string, token: string)
    ensures BackupName(now, target, token) == Stamp(now.Fields()) + ("-" + target + "-" + token + ".txt")
  {
    hide Stamp;
  }

  lemma StampNext(f: Field, more: seq<Field>, x: string)
    ensures f.mark != "" ==> Stamp([f] + more) + x == Fixed(f.value, f.width) + (f.mark + (Stamp(more) + x))
    ensures f.mark == "" ==> Stamp([f] + more) + x == Fixed(f.value, f.width) + (Stamp(more) + x)
  {
    hide Fixed, Stamp;
    StampUnfold([f] + more, x);
    assert ([f] + more)[1..] == more;
    assert "" + (Stamp(more) + x) == Stamp(more) + x;
  }

  lemma NoMoreFields(x: string)
    ensures Stamp([]) + x == x
  {
  }

  // ----- runs -----

  /** The sets of backups after each of the backups `names`, made one after the other. */
  ghost predicate IsRun(names: seq<string>, states: seq<set<string>>) {
    && |states| == |names| + 1
    && if names == [] then states[0] == {}
       else
         var n := |names| - 1;
         && IsRun(names[..n], states[..n + 1])
         && IsRetained(states[n] + {names[n]}, names[n], states[n + 1])
  }

  function Last(names: seq<string>): seq<string> {
    if |names| <= LIMIT then names else names[|names| - LIMIT..]
  }

  /** With names that only grow, a run leaves exactly the last sixteen backups. */
  lemma {:induction false} RunKeepsTheLast(names: seq<string>, states: seq<set<string>>)
    requires StrictlyAscending(names) && IsRun(names, states)
    ensures states[|names|] == Elements(Last(names))
  {
    hide Less, IsRetained;
    if names != [] {
      var n := |names| - 1;
      var before, name := names[..n], names[n];
      RunKeepsTheLast(before, states[..n + 1]);
      assert before + [name] == names;
      StepKeepsTheLast(before, name);
      RetainedUnique(states[n] + {name}, name, states[n + 1], Elements(Last(names)));
    }
  }

  lemma AscendingDistinct(s: seq<string>)
    requires StrictlyAscending(s)
    ensures Distinct(s)
  {
    forall i, j | 0 <= i < j < |s|
      ensures s[i] != s[j]
    {
      LessAsymmetric(s[i], s[j]);
    }
  }

  lemma StepKeepsTheLast(before: seq<string>, name: string)
    requires StrictlyAscending(before + [name])
    ensures IsRetained(Elements(Last(before)) + {name}, name, Elements(Last(before + [name])))
  {
    if |before| < LIMIT {
      FillWindow(before, name);
    } else {
      var first, rest := before[|before| - LIMIT], before[|before| - LIMIT + 1..];
      WindowOf(before, name);
      SlideWindow(first, rest, name);
    }
  }

  lemma AscendingSuffix(names: seq<string>, i: nat)
    requires StrictlyAscending(names) && i <= |names|
    ensures StrictlyAscending(names[i..])
  {
    hide Less;
  }

  lemma WindowOf(before: seq<string>, name: string)
    requires StrictlyAscending(before + [name]) && |before| >= LIMIT
    ensures var first, rest := before[|before| - LIMIT], before[|before| - LIMIT + 1..];
            && Last(before) == [first] + rest
            && Last(before + [name]) == rest + [name]
            && StrictlyAscending([first] + rest + [name])
  {
    hide Less, StrictlyAscending;
    var names := before + [name];
    var first, rest := before[|before| - LIMIT], before[|before| - LIMIT + 1..];
    AscendingSuffix(names, |before| - LIMIT);
    assert [first] + rest + [name] == names[|before| - LIMIT..];
  }

  lemma FillWindow(before: seq<string>, name: string)
    requires StrictlyAscending(before + [name]) && |before| < LIMIT
    ensures IsRetained(Elements(Last(before)) + {name}, name, Elements(Last(before + [name])))
  {
    var names := before + [name];
    AscendingDistinct(names);
    DistinctCount(names);
    assert Elements(names) == Elements(before) + {name};
    assert Elements(names) - Elements(names) == {};
  }

  lemma SlideWindow(first: string, rest: seq<string>, name: string)
    requires StrictlyAscending([first] + rest + [name]) && |rest| == LIMIT - 1
    ensures IsRetained(Elements([first] + rest) + {name}, name, Elements(rest + [name]))
  {
    var all := [first] + rest + [name];
    AscendingDistinct(all);
    assert all[1..] == rest + [name];
    DistinctCount(all);
    DistinctCount(all[1..]);
    assert Elements([first] + rest) + {name} == Elements(all);
    forall x | x in all[1..]
      ensures Less(first, x)
    {
      var i :| 0 <= i < |all[1..]| && all[1..][i] == x;
      assert all[0] == first && all[i + 1] == x;
    }
    assert Elements(all) - Elements(all[1..]) <= {first};
  }
}
