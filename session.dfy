/**
 * Attendance sessions: the 4-digit code a course representative hands out, the
 * key `school_department_level` that names one attendance window, and the file
 * paths in the data repository derived from it.
 */
module Session {
  import opened Text

  /** The entry of `active_attendance.json` for one session key: the code in force
      and its expiry, as seconds since the epoch. */
  datatype ActiveSession = ActiveSession(currentToken: string, expiry: int)

  const ACTIVE_ATTENDANCE_PATH: string := "active_attendance.json"
  const DEVICE_REGISTRY_PATH: string := "device_registry.json"

  /** A well-formed attendance code: four decimal digits, the first not zero. */
  predicate IsToken(t: string) {
    |t| == 4 && IsDigitString(t) && t[0] != '0'
  }

  /** `generate_token`: the numeral of the random draw, which `random.randint(1000, 9999)`
      takes from [1000, 9999]. */
  function GenerateToken(draw: int): (token: string)
    requires 1000 <= draw <= 9999
    ensures IsToken(token)
    ensures DigitsValue(token) == draw
  {
    FourDigitNumeral(draw);
    DecimalRoundTrip(draw);
    DecimalString(draw)
  }

  /** Every well-formed code is issued by exactly one draw, so the codes are exactly
      the numerals 1000..9999. */
  lemma TokensAreExactlyTheDraws(token: string)
    requires IsToken(token)
    ensures 1000 <= DigitsValue(token) <= 9999
    ensures GenerateToken(DigitsValue(token)) == token
    ensures forall draw :: 1000 <= draw <= 9999 && GenerateToken(draw) == token ==> draw == DigitsValue(token)
  {
    var t1, t2, t3 := token[..1], token[..2], token[..3];
    assert t3[..2] == t2 && t2[..1] == t1 && t1[..0] == [];
    assert token[..3] == t3;
    assert 1 <= DigitsValue(t1) <= 9;
    assert 10 <= DigitsValue(t2) <= 99;
    assert 100 <= DigitsValue(t3) <= 999;
    CanonicalRoundTrip(token);
  }

  /** The session key `f"{school}_{department}_{level}"`. */
  function SessionKey(school: string, department: string, level: nat): string {
    school + "_" + department + "_" + DecimalString(level)
  }

  /** `key in active_attendance`: a session is open exactly when its key has an
      entry, whatever that entry's expiry. */
  predicate IsActive(key: string, active: map<string, ActiveSession>) {
    key in active
  }

  /** The ledger file of a session, `f"attendance_{key}.json"`. */
  function LedgerPath(key: string): string {
    "attendance_" + key + ".json"
  }

  /** In `a + [sep] + b` with `sep` not in `a`, the first `sep` is at index `|a|`. */
  lemma FirstSeparator(a: string, b: string, sep: char)
    requires sep !in a
    ensures (a + [sep] + b)[|a|] == sep
    ensures forall i :: 0 <= i < |a| ==> (a + [sep] + b)[i] != sep
  {
  }

  /** Splitting at the first occurrence of a separator that neither left part contains. */
  lemma SplitAtSeparator(a1: string, b1: string, a2: string, b2: string, sep: char)
    requires sep !in a1 && sep !in a2
    requires a1 + [sep] + b1 == a2 + [sep] + b2
    ensures a1 == a2 && b1 == b2
  {
    var whole := a1 + [sep] + b1;
    FirstSeparator(a1, b1, sep);
    FirstSeparator(a2, b2, sep);
    assert |a1| == |a2|;
    assert a1 == whole[..|a1|] == a2;
    assert b1 == whole[|a1| + 1..] == b2;
  }

  /** Sessions whose school and department names contain no underscore (as in the
      university's catalogue) never share a key. */
  lemma {:induction false} SessionKeyInjective(school1: string, department1: string, level1: nat,
                                               school2: string, department2: string, level2: nat)
    requires '_' !in school1 && '_' !in department1
    requires '_' !in school2 && '_' !in department2
    requires SessionKey(school1, department1, level1) == SessionKey(school2, department2, level2)
    ensures school1 == school2 && department1 == department2 && level1 == level2
  {
    var numeral1, numeral2 := DecimalString(level1), DecimalString(level2);
    var rest1, rest2 := department1 + "_" + numeral1, department2 + "_" + numeral2;
    assert SessionKey(school1, department1, level1) == school1 + ['_'] + rest1;
    assert SessionKey(school2, department2, level2) == school2 + ['_'] + rest2;
    SplitAtSeparator(school1, rest1, school2, rest2, '_');
    assert rest1 == department1 + ['_'] + numeral1;
    assert rest2 == department2 + ['_'] + numeral2;
    SplitAtSeparator(department1, numeral1, department2, numeral2, '_');
    DecimalStringInjective(level1, level2);
  }

  /** Such sessions therefore never share a ledger file. */
  lemma SessionLedgersDistinct(school1: string, department1: string, level1: nat,
                               school2: string, department2: string, level2: nat)
    requires '_' !in school1 && '_' !in department1
    requires '_' !in school2 && '_' !in department2
    requires LedgerPath(SessionKey(school1, department1, level1)) == LedgerPath(SessionKey(school2, department2, level2))
    ensures school1 == school2 && department1 == department2 && level1 == level2
  {
    LedgerPathInjective(SessionKey(school1, department1, level1), SessionKey(school2, department2, level2));
    SessionKeyInjective(school1, department1, level1, school2, department2, level2);
  }

  /** Distinct keys have distinct ledger files, and no ledger file is one of the two
      fixed files kept in the same repository. */
  lemma LedgerPathInjective(key1: string, key2: string)
    ensures LedgerPath(key1) == LedgerPath(key2) ==> key1 == key2
    ensures LedgerPath(key1) != ACTIVE_ATTENDANCE_PATH
    ensures LedgerPath(key1) != DEVICE_REGISTRY_PATH
  {
    var p1 := LedgerPath(key1);
    assert p1[1] == 't';
    assert ACTIVE_ATTENDANCE_PATH[1] == 'c' && DEVICE_REGISTRY_PATH[0] == 'd';
    if p1 == LedgerPath(key2) {
      assert key1 == p1[11..|p1| - 5];
    }
  }

  /** The archive file name `{course_code}_{folder}_{stamp}.csv`. */
  function ArchiveFileName(courseCode: string, folder: string, stamp: string): string {
    courseCode + "_" + folder + "_" + stamp + ".csv"
  }

  /** The archive path after `attendances/`: the school, the department folder and
      the file name, joined by slashes. */
  function ArchiveTail(school: string, folder: string, courseCode: string, stamp: string): string {
    school + ['/'] + (folder + ['/'] + ArchiveFileName(courseCode, folder, stamp))
  }

  /** A suffix of `p` made of `x`, then `c`, then the rest, is `x + [c] + rest`. */
  lemma Reassemble(p: string, i: nat, x: string, c: char)
    requires i + |x| < |p| && p[i..i + |x|] == x && p[i + |x|] == c
    ensures p[i..] == x + [c] + p[i + |x| + 1..]
  {
  }

  /** The archive path of `save_csv_to_lava`:
      `attendances/{school}/{department_}/{course_code}_{department_}_{stamp}.csv`, where
      `department_` is the department name with its spaces turned into underscores. */
  function ArchivePath(school: string, department: string, courseCode: string, stamp: string): (path: string)
    ensures |path| >= 16 && path[..12] == "attendances/" && path[|path| - 4..] == ".csv"
    ensures |path| > 12 + |school| + 1 + |department| + 1
    ensures path[12..12 + |school|] == school && path[12 + |school|] == '/'
    ensures path[12 + |school| + 1..12 + |school| + 1 + |department|] == Underscored(department)
    ensures path[12 + |school| + 1 + |department|] == '/'
    ensures path[12 + |school| + 1 + |department| + 1..] ==
              courseCode + "_" + Underscored(department) + "_" + stamp + ".csv"
  {
    var dir := Underscored(department);
    var fileName := courseCode + "_" + dir + "_" + stamp + ".csv";
    var path := "attendances/" + school + "/" + dir + "/" + fileName;
    assert path[12..12 + |school|] == school;
    assert path[12 + |school| + 1..12 + |school| + 1 + |department|] == dir;
    assert path[12 + |school| + 1 + |department| + 1..] == fileName;
    path
  }

  /** Replacing spaces by underscores loses nothing in a name without underscores. */
  lemma UnderscoredInjective(d1: string, d2: string)
    requires '_' !in d1 && '_' !in d2
    requires Underscored(d1) == Underscored(d2)
    ensures d1 == d2
  {
    forall i | 0 <= i < |d1|
      ensures d1[i] == d2[i]
    {
      assert d1[i] != '_' && d2[i] != '_';
    }
  }

  /** Replacing spaces by underscores introduces no slash. */
  lemma UnderscoredNoSlash(d: string)
    requires '/' !in d
    ensures '/' !in Underscored(d)
  {
    var u := Underscored(d);
    forall i | 0 <= i < |u|
      ensures u[i] != '/'
    {
      assert u[i] == d[i] || u[i] == '_';
    }
  }

  /** The file name, split at the underscore after the course code. */
  lemma ArchiveFileNameLayout(courseCode: string, folder: string, stamp: string)
    ensures ArchiveFileName(courseCode, folder, stamp) == courseCode + ['_'] + (folder + "_" + stamp + ".csv")
  {
  }

  /** The archive path is `attendances/` followed by its tail. */
  lemma ArchivePathLayout(school: string, department: string, courseCode: string, stamp: string)
    ensures ArchivePath(school, department, courseCode, stamp)[12..] ==
              ArchiveTail(school, Underscored(department), courseCode, stamp)
  {
    var path := ArchivePath(school, department, courseCode, stamp);
    var k := 12 + |school|;
    Reassemble(path, k + 1, Underscored(department), '/');
    Reassemble(path, 12, school, '/');
  }

  /** With its folder known, the tail of the file name gives back the stamp. */
  lemma StampOfTail(dir: string, stamp1: string, stamp2: string)
    requires dir + "_" + stamp1 + ".csv" == dir + "_" + stamp2 + ".csv"
    ensures stamp1 == stamp2
  {
    var tail := dir + "_" + stamp1 + ".csv";
    assert stamp1 == tail[|dir| + 1..|tail| - 4];
    assert stamp2 == (dir + "_" + stamp2 + ".csv")[|dir| + 1..|tail| - 4];
  }

  /** When school and department contain no slash, and department and course code
      no underscore (as in the university's catalogue), the archive path determines
      school, department, course code and stamp: uploads that differ in any of them
      never share a path. The stamp only goes down to the minute, so two uploads of
      one course in the same minute do, and the later replaces the earlier. */
  lemma ArchivePathInjective(school1: string, department1: string, courseCode1: string, stamp1: string,
                             school2: string, department2: string, courseCode2: string, stamp2: string)
    requires '/' !in school1 && '/' !in department1 && '_' !in department1 && '_' !in courseCode1
    requires '/' !in school2 && '/' !in department2 && '_' !in department2 && '_' !in courseCode2
    requires ArchivePath(school1, department1, courseCode1, stamp1) == ArchivePath(school2, department2, courseCode2, stamp2)
    ensures school1 == school2 && department1 == department2 && courseCode1 == courseCode2 && stamp1 == stamp2
  {
    var dir1, dir2 := Underscored(department1), Underscored(department2);
    var tail1, tail2 := dir1 + "_" + stamp1 + ".csv", dir2 + "_" + stamp2 + ".csv";
    var file1, file2 := courseCode1 + ['_'] + tail1, courseCode2 + ['_'] + tail2;
    ArchivePathLayout(school1, department1, courseCode1, stamp1);
    ArchivePathLayout(school2, department2, courseCode2, stamp2);
    ArchiveFileNameLayout(courseCode1, dir1, stamp1);
    ArchiveFileNameLayout(courseCode2, dir2, stamp2);
    SplitAtSeparator(school1, dir1 + ['/'] + file1, school2, dir2 + ['/'] + file2, '/');
    UnderscoredNoSlash(department1);
    UnderscoredNoSlash(department2);
    SplitAtSeparator(dir1, file1, dir2, file2, '/');
    UnderscoredInjective(department1, department2);
    SplitAtSeparator(courseCode1, tail1, courseCode2, tail2, '_');
    StampOfTail(dir1, stamp1, stamp2);
  }
}
