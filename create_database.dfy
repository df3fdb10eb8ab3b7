/** The database bootstrap script: it reads `KEY=value` lines from `.env`,
    takes the `DB_*` settings with their defaults, and issues one
    `CREATE DATABASE IF NOT EXISTS` statement. The file's lines are an
    input; reading the file, connecting and executing are left out. */
module CreateDatabase {
  import opened Values
  import opened Text

  /** The characters the script trims from both ends of a value. */
  const ValueTrim: set<char> := {' ', '"', '\'', '\n', '\r'}

  datatype EnvEntry = EnvEntry(key: string, value: string)

  predicate IsPhpWhitespace(c: char) {
    c == ' ' || c == '\t' || c == '\n' || c == '\r' || c == '\0' || c == '\U{000B}'
  }

  /** The first character that is not PHP white space is `#`. */
  predicate IsComment(line: string)
    decreases |line|
  {
    |line| > 0 && if IsPhpWhitespace(line[0]) then IsComment(line[1..]) else line[0] == '#'
  }

  /** `IsComment` is the script's test `strpos(trim($line), '#') === 0`. */
  lemma CommentIsTrimmedHash(line: string)
    ensures IsComment(line) <==> var t := Trim(line, PhpWhitespace); |t| > 0 && t[0] == '#'
  {
    CommentAfter(line, PhpWhitespace);
  }

  lemma CommentAfter(line: string, cs: set<char>)
    requires forall c :: c in cs <==> IsPhpWhitespace(c)
    ensures IsComment(line) <==> var t := Trim(line, cs); |t| > 0 && t[0] == '#'
  {
    CommentAtStart(line, cs);
    TrimIsSlice(line, cs);
    var i := TrimStart(line, cs);
    if i < |line| {
      assert Trim(line, cs) != [] && Trim(line, cs)[0] == line[i];
    }
  }

  /** A comment is a line whose first character outside `cs` is `#`. */
  lemma {:induction false} CommentAtStart(line: string, cs: set<char>)
    requires forall c :: c in cs <==> IsPhpWhitespace(c)
    ensures IsComment(line) <==> var i := TrimStart(line, cs); i < |line| && line[i] == '#'
    decreases |line|
  {
    if |line| > 0 && IsPhpWhitespace(line[0]) {
      CommentAtStart(line[1..], cs);
    }
  }

  /** What one line contributes: nothing for a comment, for a line without
      `=` or for one whose first `=` is its first character (`strpos`
      returns `false` or `0`, both falsy); otherwise the trimmed text
      before the first `=` and the trimmed text after it. */
  function Entry(line: string): (e: Option<EnvEntry>)
    ensures e.Some? <==> !IsComment(line) && 0 < IndexOf(line, '=') < |line|
    ensures e.Some? ==> '=' !in e.value.key
    ensures e.Some? ==> var v := e.value.value; v == [] || (v[0] !in ValueTrim && v[|v| - 1] !in ValueTrim)
  {
    var i := IndexOf(line, '=');
    if IsComment(line) || i == 0 || i == |line| then None
    else
      TrimKeepsOut(line[..i], PhpWhitespace, '=');
      TrimIsSlice(line[i + 1..], ValueTrim);
      Some(EnvEntry(Trim(line[..i], PhpWhitespace), Trim(line[i + 1..], ValueTrim)))
  }

  /** Trimming adds no character. */
  lemma TrimKeepsOut(s: string, cs: set<char>, c: char)
    requires c !in s
    ensures c !in Trim(s, cs)
  {
    TrimIsSlice(s, cs);
    var i, r := TrimStart(s, cs), Trim(s, cs);
    forall k | 0 <= k < |r| ensures r[k] != c {
      assert r[k] == s[i + k];
    }
  }

  /** `key=value` with no `=` in the key yields the trimmed key and the
      whole trimmed value, however many `=` the value holds. */
  lemma EntryOfAssignment(key: string, value: string)
    requires |key| > 0 && '=' !in key && !IsComment(key + "=" + value)
    ensures Entry(key + "=" + value) == Some(EnvEntry(Trim(key, PhpWhitespace), Trim(value, ValueTrim)))
  {
    var line := key + "=" + value;
    assert line[|key|] == '=';
    assert IndexOf(line, '=') == |key| by {
      forall k | 0 <= k < |key| ensures line[k] != '=' {
        assert line[k] == key[k];
      }
    }
    assert line[..|key|] == key;
    assert line[|key| + 1..] == value;
  }

  /** The entries of the lines, one per line. */
  function Entries(lines: seq<string>): (es: seq<Option<EnvEntry>>)
    ensures |es| == |lines|
    ensures forall i :: 0 <= i < |lines| ==> es[i] == Entry(lines[i])
  {
    seq(|lines|, i requires 0 <= i < |lines| => Entry(lines[i]))
  }

  /** The variables after the given entries, each applied in turn. */
  function Apply(es: seq<Option<EnvEntry>>): map<string, string>
    decreases |es|
  {
    if |es| == 0 then map[]
    else
      var vars := Apply(es[..|es| - 1]);
      match es[|es| - 1]
      case None => vars
      case Some(e) => vars[e.key := e.value]
  }

  /** The variables the script collects from the lines of `.env`. */
  function ParseLines(lines: seq<string>): map<string, string> {
    Apply(Entries(lines))
  }

  /** The `foreach` loop over the lines of `.env`. */
  method ParseEnv(lines: seq<string>) returns (vars: map<string, string>)
    ensures vars == ParseLines(lines)
  {
    ghost var es := Entries(lines);
    vars := map[];
    var n := 0;
    while n < |lines|
      invariant n <= |lines|
      invariant vars == Apply(es[..n])
    {
      assert es[..n + 1][..n] == es[..n];
      var e := Entry(lines[n]);
      if e.Some? {
        vars := vars[e.value.key := e.value.value];
      }
      n := n + 1;
    }
    assert es[..n] == es;
  }

  predicate Assigns(e: Option<EnvEntry>, key: string) {
    e.Some? && e.value.key == key
  }

  /** The position of the last entry that assigns `key`, if any. */
  function LastAssignment(es: seq<Option<EnvEntry>>, key: string): (r: Option<nat>)
    ensures r.Some? ==> r.value < |es| && Assigns(es[r.value], key)
    ensures r.Some? ==> forall j :: r.value < j < |es| ==> !Assigns(es[j], key)
    ensures r.None? ==> forall j :: 0 <= j < |es| ==> !Assigns(es[j], key)
    decreases |es|
  {
    if |es| == 0 then None
    else if Assigns(es[|es| - 1], key) then Some(|es| - 1)
    else LastAssignment(es[..|es| - 1], key)
  }

  /** A key is set exactly when some line assigns it, and then it holds the
      value of the last such line: later lines override earlier ones. */
  lemma {:induction false} LastAssignmentWins(es: seq<Option<EnvEntry>>, key: string)
    ensures key in Apply(es) <==> LastAssignment(es, key).Some?
    ensures key in Apply(es) ==> Apply(es)[key] == es[LastAssignment(es, key).value].value.value
    decreases |es|
  {
    if |es| > 0 {
      LastAssignmentWins(es[..|es| - 1], key);
    }
  }

  /** The same, read on the lines of `.env`. */
  lemma LastLineWins(lines: seq<string>, key: string)
    ensures var last := LastAssignment(Entries(lines), key);
      (key in ParseLines(lines) <==> last.Some?) &&
      (last.Some? ==> ParseLines(lines)[key] == Entry(lines[last.value]).value.value)
  {
    LastAssignmentWins(Entries(lines), key);
  }

  /** Comments, lines without a usable `=`, and so on add nothing. */
  lemma IgnoredLine(lines: seq<string>, line: string)
    requires IsComment(line) || IndexOf(line, '=') == 0 || '=' !in line
    ensures ParseLines(lines + [line]) == ParseLines(lines)
  {
    var es := Entries(lines + [line]);
    assert es[..|lines|] == Entries(lines);
    assert es[|lines|] == None;
  }

  datatype DbConfig = DbConfig(host: string, port: string, database: string, username: string, password: string)

  function Setting(vars: map<string, string>, key: string, default: string): (s: string)
    ensures key in vars ==> s == vars[key]
    ensures key !in vars ==> s == default
  {
    if key in vars then vars[key] else default
  }

  /** `$vars['DB_…'] ?? default` for the five settings. */
  function Config(vars: map<string, string>): (c: DbConfig)
    ensures c.host == Setting(vars, "DB_HOST", "127.0.0.1")
    ensures c.port == Setting(vars, "DB_PORT", "3306")
    ensures c.database == Setting(vars, "DB_DATABASE", "ada")
    ensures c.username == Setting(vars, "DB_USERNAME", "root")
    ensures c.password == Setting(vars, "DB_PASSWORD", "")
  {
    DbConfig(Setting(vars, "DB_HOST", "127.0.0.1"), Setting(vars, "DB_PORT", "3306"),
      Setting(vars, "DB_DATABASE", "ada"), Setting(vars, "DB_USERNAME", "root"),
      Setting(vars, "DB_PASSWORD", ""))
  }

  /** An empty `.env` connects as `root` without a password to `127.0.0.1:3306`
      and creates `ada`. */
  lemma DefaultConfig()
    ensures Config(ParseLines([])) == DbConfig("127.0.0.1", "3306", "ada", "root", "")
  {
  }

  const StatementHead: string := "CREATE DATABASE IF NOT EXISTS `"
  const StatementTail: string := "` CHARACTER SET utf8mb4 COLLATE utf8mb4_unicode_ci"

  function CreateStatement(name: string): (sql: string)
    ensures StatementHead <= sql
    ensures |sql| == |StatementHead| + |name| + |StatementTail|
    ensures sql[|StatementHead|..|StatementHead| + |name|] == name
    ensures sql[|StatementHead| + |name|..] == StatementTail
  {
    StatementHead + name + StatementTail
  }

  /** Different database names give different statements. */
  lemma CreateStatementInjective(a: string, b: string)
    requires CreateStatement(a) == CreateStatement(b)
    ensures a == b
  {
    assert |a| == |b|;
  }

  function Dsn(c: DbConfig): string {
    "mysql:host=" + c.host + ";port=" + c.port
  }

  /** What the script does: exit 1 without a `.env`, otherwise connect with
      these credentials and run this statement. */
  datatype Plan =
    | MissingEnv
    | Connect(dsn: string, username: string, password: string, sql: string)

  method PlanOf(env: Option<seq<string>>) returns (p: Plan)
    ensures env.None? <==> p.MissingEnv?
    ensures env.Some? ==>
      var c := Config(ParseLines(env.value));
      p == Connect(Dsn(c), c.username, c.password, CreateStatement(c.database))
  {
    if env.None? {
      return MissingEnv;
    }
    var vars := ParseEnv(env.value);
    var c := Config(vars);
    p := Connect(Dsn(c), c.username, c.password, CreateStatement(c.database));
  }
}
