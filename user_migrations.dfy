/** The users module's migration list (crates/modules/users/src/repositories/migration.rs). */
module UserMigrations {
  import opened Text
  import opened Migrations

  /** The text before the first `CREATE TABLE` of the users migration's SQL:
      the raw string starts with a line break and a comment line. */
  const SqlHead: string := "\n-- Create users table\n"

  /** The text after that first `CREATE TABLE`, line by line. */
  const SqlRest: string :=
    " IF NOT EXISTS users (\n"
    + "    id UUID PRIMARY KEY,\n"
    + "    username VARCHAR(255) NOT NULL UNIQUE,\n"
    + "    email VARCHAR(255) NOT NULL UNIQUE,\n"
    + "    full_name VARCHAR(255) NOT NULL,\n"
    + "    age INTEGER,\n"
    + "    created_at TIMESTAMP WITH TIME ZONE DEFAULT CURRENT_TIMESTAMP,\n"
    + "    updated_at TIMESTAMP WITH TIME ZONE DEFAULT CURRENT_TIMESTAMP\n"
    + ");\n"
    + "\n"
    + "-- Create indexes for better query performance\n"
    + "CREATE INDEX IF NOT EXISTS idx_users_username ON users(username);\n"
    + "CREATE INDEX IF NOT EXISTS idx_users_email ON users(email);\n"
    + "CREATE INDEX IF NOT EXISTS idx_users_age ON users(age);\n"
    + "\n"
    + "-- Create a trigger to auto-update updated_at\n"
    + "CREATE OR REPLACE FUNCTION update_updated_at_column()\n"
    + "RETURNS TRIGGER AS $$\n"
    + "BEGIN\n"
    + "    NEW.updated_at = CURRENT_TIMESTAMP;\n"
    + "    RETURN NEW;\n"
    + "END;\n"
    + "$$ language 'plpgsql';\n"
    + "\n"
    + "CREATE TRIGGER update_users_updated_at BEFORE UPDATE ON users\n"
    + "    FOR EACH ROW EXECUTE FUNCTION update_updated_at_column();\n"

  /** `MIGRATION_CREATE_USERS_TABLE`. */
  const CreateUsersTableSql: string := SqlHead + "CREATE TABLE" + SqlRest

  /** `MIGRATIONS`: the users module's only descriptor. */
  const UserMigrationList: seq<Migration> := [
    Migration("users", 1, "create_users_table", CreateUsersTableSql)
  ]

  /** The list has exactly one entry: users, version 1, `create_users_table`. */
  lemma ListContents()
    ensures |UserMigrationList| == 1
    ensures UserMigrationList[0].moduleName == "users"
    ensures UserMigrationList[0].version == 1
    ensures UserMigrationList[0].name == "create_users_table"
    ensures UserMigrationList[0].sql == CreateUsersTableSql
    ensures UserMigrationList == [UserMigrationList[0]]
  {
  }

  /** No two entries share a version: collecting the versions into a set
      loses none of them. */
  lemma VersionsDistinct()
    ensures |set m | m in UserMigrationList :: m.version| == |UserMigrationList|
  {
    assert (set m | m in UserMigrationList :: m.version) == {1};
  }

  /** Every SQL body is non-empty and contains `CREATE TABLE`. */
  lemma SqlCreatesTable(m: Migration)
    requires m in UserMigrationList
    ensures m.sql != [] && Contains(m.sql, "CREATE TABLE")
  {
    ListContents();
    assert m.sql == CreateUsersTableSql;
    OccursBetween(SqlHead, "CREATE TABLE", SqlRest);
  }

  /** The SQL starts and ends with a line break (code 10), which is all the
      checksum looks at besides the length. */
  lemma SqlEnds()
    ensures FirstCode(CreateUsersTableSql) == 10 && LastCode(CreateUsersTableSql) == 10
  {
    assert CreateUsersTableSql[0] == SqlHead[0];
    assert CreateUsersTableSql[|CreateUsersTableSql| - 1] == SqlRest[|SqlRest| - 1];
  }
}
