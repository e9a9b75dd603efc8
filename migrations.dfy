/**
 * Numbering of new migration files (`create_migration_file` in scripts/create_migration.py).
 * The directory listing is the list of names `os.listdir` returns; a name contributes a number
 * when it ends in `.sql` and its text before the first `_` is all digits. The new file gets
 * `max(numbers, default=0) + 1`, formatted as `f"{n:03d}_{name}.sql"`.
 */
module Migrations {
  import opened PyText

  const Ext: string := ".sql"

  predicate EndsWith(s: string, suffix: string) {
    |suffix| <= |s| && s[|s| - |suffix|..] == suffix
  }

  /** The first `_`-separated token of a name: the text before its first `_`, or all of it. */
  function PrefixToken(f: string): (t: string)
    ensures '_' !in t && t <= f
    ensures |t| < |f| ==> f[|t|] == '_'
  {
    var parts := Split(f, '_');
    if |parts| > 1 then
      assert f == parts[0] + "_" + Join(parts[1..], "_");
      parts[0]
    else
      parts[0]
  }

  /** Whatever follows the first `_`, the token is what precedes it. */
  lemma PrefixTokenOf(a: string, b: string)
    requires '_' !in a
    ensures PrefixToken(a + "_" + b) == a
  {
    SplitConcat(a, b, '_');
    SplitSingle(a, '_');
  }

  /** A `.sql` name whose first token is all digits: it takes part in the numbering. */
  predicate Contributes(f: string) {
    EndsWith(f, Ext) && IsDigits(PrefixToken(f))
  }

  /** The number a contributing name carries: its first token read as a decimal number. */
  function Value(f: string): nat
    requires Contributes(f)
  {
    ParseNat(PrefixToken(f))
  }

  /** The numbers already taken: the value of every contributing name, in listing order. */
  function Numbers(files: seq<string>): seq<nat>
  {
    if files == [] then []
    else if Contributes(files[|files| - 1]) then Numbers(files[..|files| - 1]) + [Value(files[|files| - 1])]
    else Numbers(files[..|files| - 1])
  }

  /** The largest number of `ns`, or 0 when there is none. */
  function MaxOr0(ns: seq<nat>): (m: nat)
    ensures forall i :: 0 <= i < |ns| ==> ns[i] <= m
    ensures ns == [] ==> m == 0
    ensures ns != [] ==> m in ns
  {
    if ns == [] then 0
    else
      var init, last := ns[..|ns| - 1], ns[|ns| - 1];
      assert ns == init + [last];
      if MaxOr0(init) < last then last else MaxOr0(init)
  }

  /** The number the new migration gets: one above the largest taken, or 1. */
  function NextNumber(files: seq<string>): nat
  {
    MaxOr0(Numbers(files)) + 1
  }

  /** The new file's name: the number zero-padded to three digits, `_`, the name, `.sql`. */
  function FileName(n: nat, name: string): string
  {
    ZeroPad(n, 3) + "_" + name + Ext
  }

  /** A number occurs in `numbers` exactly when some contributing name has it as its value. */
  lemma {:induction false} NumbersHas(files: seq<string>, n: nat)
    ensures n in Numbers(files) <==>
      exists k :: 0 <= k < |files| && Contributes(files[k]) && Value(files[k]) == n
  {
    if files != [] {
      var init := files[..|files| - 1];
      NumbersHas(init, n);
      assert forall k :: 0 <= k < |init| ==> init[k] == files[k];
      if exists k :: 0 <= k < |files| && Contributes(files[k]) && Value(files[k]) == n {
        var k :| 0 <= k < |files| && Contributes(files[k]) && Value(files[k]) == n;
        if k < |init| {
          assert Contributes(init[k]) && Value(init[k]) == n;
        }
      }
    }
  }

  /**
   * The next number is 1 when no name contributes, and otherwise one more than the largest
   * contributing value: above every value, and one more than some value.
   */
  lemma NextNumberSpec(files: seq<string>)
    ensures NextNumber(files) >= 1
    ensures forall k :: 0 <= k < |files| && Contributes(files[k]) ==> Value(files[k]) < NextNumber(files)
    ensures (forall k :: 0 <= k < |files| ==> !Contributes(files[k])) ==> NextNumber(files) == 1
    ensures (exists k :: 0 <= k < |files| && Contributes(files[k])) ==>
      exists k :: 0 <= k < |files| && Contributes(files[k]) && Value(files[k]) + 1 == NextNumber(files)
  {
    var ns := Numbers(files);
    forall k | 0 <= k < |files| && Contributes(files[k]) ensures Value(files[k]) < NextNumber(files) {
      NumbersHas(files, Value(files[k]));
    }
    if ns == [] {
      if exists k :: 0 <= k < |files| && Contributes(files[k]) {
        var k :| 0 <= k < |files| && Contributes(files[k]);
        NumbersHas(files, Value(files[k]));
      }
    } else {
      NumbersHas(files, MaxOr0(ns));
    }
  }

  /** Names that do not contribute (wrong extension, no numeric token) leave the next number alone. */
  lemma IgnoredName(files: seq<string>, f: string)
    requires !Contributes(f)
    ensures NextNumber(files + [f]) == NextNumber(files)
  {
    assert (files + [f])[..|files|] == files;
  }

  /** Adding a name never lowers the next number. */
  lemma NextMonotone(files: seq<string>, f: string)
    ensures NextNumber(files) <= NextNumber(files + [f])
  {
    assert (files + [f])[..|files|] == files;
    var ns := Numbers(files);
    if Contributes(f) {
      assert forall i :: 0 <= i < |ns| ==> (ns + [Value(f)])[i] == ns[i];
      if ns != [] {
        assert MaxOr0(ns) in ns + [Value(f)];
      }
    }
  }

  /** For `n` up to 999 the number part is exactly three digits; beyond, it is `str(n)` itself. */
  lemma NumberWidth(n: nat)
    ensures n <= 999 ==> |ZeroPad(n, 3)| == 3
    ensures n > 999 ==> ZeroPad(n, 3) == Decimal(n)
  {
    DecimalLength(n, 3);
    assert Pow10(3) == 1000;
  }

  /**
   * Round trip: the new name ends in `.sql`, its token is the zero-padded number (whatever `_`s
   * `name` holds), and so it contributes exactly `n` to the numbering.
   */
  lemma FileNameParses(n: nat, name: string)
    ensures EndsWith(FileName(n, name), Ext)
    ensures PrefixToken(FileName(n, name)) == ZeroPad(n, 3)
    ensures Contributes(FileName(n, name)) && Value(FileName(n, name)) == n
  {
    FileNameToken(n, name);
    ZeroPadParses(n, 3);
  }

  lemma FileNameToken(n: nat, name: string)
    ensures EndsWith(FileName(n, name), Ext)
    ensures PrefixToken(FileName(n, name)) == ZeroPad(n, 3)
  {
    var z := ZeroPad(n, 3);
    EndsWithExt(z + "_" + name);
    DigitsHaveNoUnderscore(z);
    TokenBeforeName(z, name);
  }

  lemma TokenBeforeName(z: string, name: string)
    requires '_' !in z
    ensures PrefixToken(z + "_" + name + Ext) == z
  {
    assert z + "_" + name + Ext == z + "_" + (name + Ext);
    PrefixTokenOf(z, name + Ext);
  }

  lemma EndsWithExt(s: string)
    ensures EndsWith(s + Ext, Ext)
  {
    assert (s + Ext)[|s|..] == Ext;
  }

  lemma DigitsHaveNoUnderscore(z: string)
    requires AllDigits(z)
    ensures '_' !in z
  {
    forall k | 0 <= k < |z| ensures z[k] != '_' {
      assert IsDigit(z[k]);
    }
  }

  /** The allocated name is new: no name already listed carries it. */
  lemma NextIsFresh(files: seq<string>, name: string)
    ensures FileName(NextNumber(files), name) !in files
  {
    var f := FileName(NextNumber(files), name);
    FileNameParses(NextNumber(files), name);
    NextNumberSpec(files);
  }

  /** Once the new file is listed, allocating again yields the following number. */
  lemma NextAfterAdd(files: seq<string>, name: string)
    ensures NextNumber(files + [FileName(NextNumber(files), name)]) == NextNumber(files) + 1
  {
    var n := NextNumber(files);
    var f := FileName(n, name);
    FileNameParses(n, name);
    assert (files + [f])[..|files|] == files;
    var ns := Numbers(files);
    assert Numbers(files + [f]) == ns + [n];
    NextNumberSpec(files);
    forall i | 0 <= i < |ns| ensures ns[i] < n {
      assert ns[i] in ns;
      NumbersHas(files, ns[i]);
    }
    assert MaxOr0(ns + [n]) == n by {
      assert (ns + [n])[..|ns|] == ns;
    }
  }

  /** The next number depends only on which names are listed, not on the listing order. */
  lemma NextNumberOrderFree(a: seq<string>, b: seq<string>)
    requires forall f :: f in a <==> f in b
    ensures NextNumber(a) == NextNumber(b)
  {
    NextBelow(a, b);
    NextBelow(b, a);
  }

  lemma NextBelow(a: seq<string>, b: seq<string>)
    requires forall f :: f in a ==> f in b
    ensures NextNumber(a) <= NextNumber(b)
  {
    NextNumberSpec(a);
    NextNumberSpec(b);
    if exists k :: 0 <= k < |a| && Contributes(a[k]) {
      var k :| 0 <= k < |a| && Contributes(a[k]) && Value(a[k]) + 1 == NextNumber(a);
      assert a[k] in b;
      var j :| 0 <= j < |b| && b[j] == a[k];
      assert Value(b[j]) < NextNumber(b);
    }
  }

  /** No name is listed twice. */
  predicate Distinct(names: seq<string>) {
    forall i, j :: 0 <= i < j < |names| ==> names[i] != names[j]
  }

  /** The `../migrations` directory: whether it exists yet, and the names `os.listdir` returns. */
  class MigrationsDir {
    var present: bool
    var names: seq<string>

    /** A directory that has not been created lists nothing; a listing has no repeated name. */
    ghost predicate Valid()
      reads this
    {
      (!present ==> names == []) && Distinct(names)
    }

    constructor ()
      ensures Valid() && !present && names == []
    {
      present := false;
      names := [];
    }

    /**
     * `create_migration_file(name)`: make the directory if needed, allocate the next number and
     * create the new file, which appears in the listing after the existing names.
     */
    method CreateMigrationFile(name: string) returns (filename: string)
      requires Valid()
      modifies this
      ensures Valid() && present
      ensures filename == FileName(NextNumber(old(names)), name)
      ensures filename !in old(names)
      ensures names == old(names) + [filename]
    {
      present := true;
      var next := NextNumber(names);
      filename := FileName(next, name);
      NextIsFresh(names, name);
      names := names + [filename];
    }
  }
}
