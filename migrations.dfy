/** The migration descriptor of crates/core-db/src/migrations.rs: a module
    name, a version within the module, a human-readable name and the SQL to
    execute, with its checksum and its identifier. */
module Migrations {
  import opened Text
  import opened Numerals

  datatype Migration = Migration(moduleName: string, version: I32, name: string, sql: string)

  /** `Migration::new`: a plain record of its four arguments. */
  function NewMigration(moduleName: string, version: I32, name: string, sql: string): (m: Migration)
    ensures m.moduleName == moduleName && m.version == version
    ensures m.name == name && m.sql == sql
  {
    Migration(moduleName, version, name, sql)
  }

  /** The code of the first character, or of '0' when there is none. */
  function FirstCode(s: string): (n: nat)
    ensures s == [] ==> n == '0' as int
    ensures s != [] ==> n == s[0] as int
  {
    (if s == [] then '0' else s[0]) as int
  }

  /** The code of the last character, or of '0' when there is none. */
  function LastCode(s: string): (n: nat)
    ensures s == [] ==> n == '0' as int
    ensures s != [] ==> n == s[|s| - 1] as int
  {
    (if s == [] then '0' else s[|s| - 1]) as int
  }

  /** `Migration::checksum`: not a hash, only the SQL's byte length and the
      codes of its first and last characters, separated by dashes. */
  function Checksum(m: Migration): string {
    NatToDecimal(Utf8Len(m.sql)) + "-" + NatToDecimal(FirstCode(m.sql)) + "-" + NatToDecimal(LastCode(m.sql))
  }

  /** `Migration::id`: `{module}:version_{version}`. */
  function Id(m: Migration): string {
    m.moduleName + ":version_" + IntToDecimal(m.version)
  }

  lemma DigitsHaveNoDash(s: string)
    requires AllDigits(s)
    ensures '-' !in s
  {
  }

  /** Two migrations get the same checksum exactly when their SQL texts have
      the same byte length, the same first character code and the same last
      character code (with '0' standing in for both when the SQL is empty). */
  lemma ChecksumEqual(a: Migration, b: Migration)
    ensures Checksum(a) == Checksum(b) <==>
      && Utf8Len(a.sql) == Utf8Len(b.sql)
      && FirstCode(a.sql) == FirstCode(b.sql)
      && LastCode(a.sql) == LastCode(b.sql)
  {
    if Checksum(a) == Checksum(b) {
      var la, fa, za := NatToDecimal(Utf8Len(a.sql)), NatToDecimal(FirstCode(a.sql)), NatToDecimal(LastCode(a.sql));
      var lb, fb, zb := NatToDecimal(Utf8Len(b.sql)), NatToDecimal(FirstCode(b.sql)), NatToDecimal(LastCode(b.sql));
      DigitsHaveNoDash(la);
      DigitsHaveNoDash(lb);
      DigitsHaveNoDash(fa);
      DigitsHaveNoDash(fb);
      assert Checksum(a) == la + ['-'] + (fa + ['-'] + za);
      assert Checksum(b) == lb + ['-'] + (fb + ['-'] + zb);
      SplitAtFirst(la, fa + ['-'] + za, lb, fb + ['-'] + zb, '-');
      SplitAtFirst(fa, za, fb, zb, '-');
      NatToDecimalInjective(Utf8Len(a.sql), Utf8Len(b.sql));
      NatToDecimalInjective(FirstCode(a.sql), FirstCode(b.sql));
      NatToDecimalInjective(LastCode(a.sql), LastCode(b.sql));
    }
  }

  lemma CreateUsersLength()
    ensures Utf8Len("CREATE TABLE users;") == 19
  {
    AsciiUtf8Len("CREATE TABLE users;");
  }

  lemma CreatePostsLength()
    ensures Utf8Len("CREATE TABLE posts;") == 19
  {
    AsciiUtf8Len("CREATE TABLE posts;");
  }

  lemma DropUsersLength()
    ensures Utf8Len("DROP TABLE users;") == 17
  {
    AsciiUtf8Len("DROP TABLE users;");
  }

  /** The checksum says nothing about the SQL between its first and last
      character: two different statements of equal length that start and end
      alike collide. */
  lemma ChecksumCollision(a: Migration, b: Migration)
    requires a.sql == "CREATE TABLE users;" && b.sql == "CREATE TABLE posts;"
    ensures a.sql != b.sql && Checksum(a) == Checksum(b)
  {
    assert a.sql[13] != b.sql[13];
    CreateUsersLength();
    CreatePostsLength();
    ChecksumEqual(a, b);
  }

  /** Statements of different byte lengths never collide. */
  lemma ChecksumSeparatesLengths(a: Migration, b: Migration)
    requires Utf8Len(a.sql) != Utf8Len(b.sql)
    ensures Checksum(a) != Checksum(b)
  {
    ChecksumEqual(a, b);
  }

  /** The crate's own checksum test: creating and dropping the table differ. */
  lemma ChecksumTestVector(a: Migration, b: Migration)
    requires a.sql == "CREATE TABLE users;" && b.sql == "DROP TABLE users;"
    ensures Checksum(a) != Checksum(b)
  {
    CreateUsersLength();
    DropUsersLength();
    ChecksumSeparatesLengths(a, b);
  }

  /** Empty SQL has length 0 and '0' (code 48) in place of both characters. */
  lemma ChecksumOfEmpty(m: Migration)
    requires m.sql == ""
    ensures Checksum(m) == "0-48-48"
  {
    assert NatToDecimal(48) == "48";
  }

  /** Distinct `(module, version)` pairs get distinct identifiers, whatever
      characters the module name holds: the text after the last ':' is
      `version_` and a decimal number. */
  lemma IdInjective(a: Migration, b: Migration)
    requires Id(a) == Id(b)
    ensures a.moduleName == b.moduleName && a.version == b.version
  {
    var da, db := IntToDecimal(a.version), IntToDecimal(b.version);
    assert ':' !in "version_" + da by {
      forall i | 0 <= i < |"version_" + da| ensures ("version_" + da)[i] != ':' {
        if i >= 8 {
          assert ("version_" + da)[i] == da[i - 8];
        }
      }
    }
    assert ':' !in "version_" + db by {
      forall i | 0 <= i < |"version_" + db| ensures ("version_" + db)[i] != ':' {
        if i >= 8 {
          assert ("version_" + db)[i] == db[i - 8];
        }
      }
    }
    assert Id(a) == a.moduleName + [':'] + ("version_" + da);
    assert Id(b) == b.moduleName + [':'] + ("version_" + db);
    SplitAtLast(a.moduleName, "version_" + da, b.moduleName, "version_" + db, ':');
    PrefixCancel("version_", da, db);
    IntToDecimalInjective(a.version, b.version);
  }

  lemma IdExamples()
    ensures Id(Migration("users", 1, "create_users", "")) == "users:version_1"
    ensures Id(Migration("products", 5, "add_column", "")) == "products:version_5"
  {
  }
}
