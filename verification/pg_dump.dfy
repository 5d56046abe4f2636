/** `pg_backup`: the `pg_dump` invocation the script launches. The command
    is formatted as one string and cut into arguments with `str.split()`;
    the password travels only in the child's environment; standard output
    goes to `./temp/<filename>`, which is also the path returned. */
module PgDump {
  import opened PyStr
  import Decimal
  import Scratch

  const Program: string := "pg_dump"
  const PasswordVariable: string := "PGPASSWORD"
  const DefaultHost: string := "localhost"
  const DefaultPort: int := 5432

  /** One launch of the dump tool, as far as the script decides it: the
      argument vector, the complete child environment, the file that
      receives the child's standard output, and the path `pg_backup`
      returns. */
  datatype DumpRun = DumpRun(
    argv: seq<string>,
    env: map<string, string>,
    stdoutPath: string,
    result: string)

  /** `f"pg_dump -U {user} {database} -p {port} -h {host}"`: the eight
      pieces with a single space between neighbours, grouped from the
      right. */
  function Command(user: string, database: string, port: int, host: string): string {
    Program + " " + ("-U" + " " + (user + " " + (database + " " + ("-p" + " "
      + (Decimal.IntToString(port) + " " + ("-h" + " " + host))))))
  }

  function PgBackup(user: string, password: string, database: string, filename: string,
                    host: string, port: int): (r: DumpRun)
    ensures r.argv == [Program, "-U"] + Split(user) + Split(database)
                      + ["-p", Decimal.IntToString(port), "-h"] + Split(host)
    ensures r.env.Keys == {PasswordVariable} && r.env[PasswordVariable] == password
    ensures r.result == r.stdoutPath
    ensures |r.result| == |Scratch.Prefix| + |filename|
    ensures r.result[..|Scratch.Prefix|] == Scratch.Prefix && r.result[|Scratch.Prefix|..] == filename
  {
    ArgvOfCommand(user, database, port, host);
    var out := Scratch.ScratchFile(filename);
    DumpRun(Split(Command(user, database, port, host)), map[PasswordVariable := password], out, out)
  }

  lemma PortIsWord(port: int)
    ensures IsWord(Decimal.IntToString(port))
  {
  }

  /** A leading single word followed by a space is split off whole. */
  lemma SplitLeadingWord(w: string, rest: string)
    requires IsWord(w)
    ensures Split(w + " " + rest) == [w] + Split(rest)
  {
    assert w + " " + rest == w + [' '] + rest;
    SplitAtSpace(w, ' ', rest);
    SplitWord(w);
  }

  /** How `split()` cuts the command: the fixed words stay whole and each
      field contributes exactly its own words, for every input. */
  lemma ArgvOfCommand(user: string, database: string, port: int, host: string)
    ensures Split(Command(user, database, port, host))
         == [Program, "-U"] + Split(user) + Split(database)
            + ["-p", Decimal.IntToString(port), "-h"] + Split(host)
  {
    var p := Decimal.IntToString(port);
    var tail := "-p" + " " + (p + " " + ("-h" + " " + host));
    HeadWords(user + " " + (database + " " + tail));
    FieldWords(user, database, tail);
    PortIsWord(port);
    TailWords(p, host);
  }

  lemma HeadWords(rest: string)
    ensures Split(Program + " " + ("-U" + " " + rest)) == [Program, "-U"] + Split(rest)
  {
    assert IsWord(Program) && IsWord("-U");
    SplitLeadingWord(Program, "-U" + " " + rest);
    SplitLeadingWord("-U", rest);
  }

  lemma FieldWords(user: string, database: string, tail: string)
    ensures Split(user + " " + (database + " " + tail)) == Split(user) + Split(database) + Split(tail)
  {
    SplitAtSpace(user, ' ', database + " " + tail);
    SplitAtSpace(database, ' ', tail);
  }

  lemma TailWords(p: string, host: string)
    requires IsWord(p)
    ensures Split("-p" + " " + (p + " " + ("-h" + " " + host))) == ["-p", p, "-h"] + Split(host)
  {
    assert IsWord("-p") && IsWord("-h");
    SplitLeadingWord("-p", p + " " + ("-h" + " " + host));
    SplitLeadingWord(p, "-h" + " " + host);
    SplitLeadingWord("-h", host);
  }

  /** With single-word fields the argument vector is exactly the eight
      items the command line spells out. */
  lemma PlainFieldsArgv(user: string, password: string, database: string, filename: string,
                        host: string, port: int)
    requires IsWord(user) && IsWord(database) && IsWord(host)
    ensures PgBackup(user, password, database, filename, host, port).argv
         == [Program, "-U", user, database, "-p", Decimal.IntToString(port), "-h", host]
  {
    SplitWord(user);
    SplitWord(database);
    SplitWord(host);
  }

  /** A database name with a space in it reaches `pg_dump` as two separate
      arguments, so the vector grows to nine items. */
  lemma SpacedDatabaseSplits(user: string, password: string, left: string, space: char,
                             right: string, filename: string, host: string, port: int)
    requires IsWord(user) && IsWord(host) && IsWord(left) && IsWord(right) && IsSpace(space)
    ensures var argv := PgBackup(user, password, left + [space] + right, filename, host, port).argv;
      |argv| == 9 && argv[3] == left && argv[4] == right
  {
    SplitWord(user);
    SplitWord(host);
    SplitAtSpace(left, space, right);
    SplitWord(left);
    SplitWord(right);
  }

  /** The password influences nothing but the environment: two runs that
      differ only in the password launch the same argument vector and write
      to the same file. */
  lemma PasswordOnlyInEnvironment(user: string, pw1: string, pw2: string, database: string,
                                  filename: string, host: string, port: int)
    ensures var r1 := PgBackup(user, pw1, database, filename, host, port);
            var r2 := PgBackup(user, pw2, database, filename, host, port);
      r1.argv == r2.argv && r1.stdoutPath == r2.stdoutPath && r1.result == r2.result
      && r1.env.Keys == r2.env.Keys
  {
  }

  lemma DefaultPortText()
    ensures Decimal.IntToString(DefaultPort) == "5432"
  {
    assert Decimal.Digits(5) == "5";
    assert Decimal.Digits(54) == "54";
    assert Decimal.Digits(543) == "543";
  }

  lemma ExampleFieldsAreWords()
    ensures IsWord("postgres") && IsWord("app") && IsWord(DefaultHost)
  {
  }

  /** The documented example: user `postgres`, database `app`, default host
      and port. */
  lemma DefaultCommand()
    ensures Command("postgres", "app", DefaultPort, DefaultHost)
         == "pg_dump -U postgres app -p 5432 -h localhost"
  {
    DefaultPortText();
    DefaultCommandText();
  }

  lemma DefaultCommandText()
    ensures "pg_dump" + " " + ("-U" + " " + ("postgres" + " " + ("app" + " " + ("-p" + " "
              + ("5432" + " " + ("-h" + " " + "localhost"))))))
         == "pg_dump -U postgres app -p 5432 -h localhost"
  {
  }

  lemma DefaultInvocation(password: string, filename: string)
    ensures PgBackup("postgres", password, "app", filename, DefaultHost, DefaultPort).argv
         == ["pg_dump", "-U", "postgres", "app", "-p", "5432", "-h", "localhost"]
  {
    DefaultPortText();
    ExampleFieldsAreWords();
    PlainFieldsArgv("postgres", password, "app", filename, DefaultHost, DefaultPort);
  }
}
