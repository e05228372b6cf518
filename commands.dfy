/** Command classification of the interactive front end
    (src/system/commands/type.rs): the first space-separated word of a line
    chooses the kind of command, and for a `sys` line the second word
    chooses the system command. Words are compared after lower-casing. */
module Commands {
  import opened Wrappers
  import opened Strings

  datatype CommandType =
    | CreateTable | Insert | Select | Delete | Drop | Update
    | ShowTable | ShowDB | TableInfo | System

  datatype SysCommand =
    | CreateDatabase | UseDatabase | DropDatabase | ShowDatabases
    | ChangePassword | SysInfo

  const InvalidCommand := "Invalid command."

  /** The keyword table: the word that selects each command. */
  function CommandWord(c: CommandType): (r: string)
    ensures ' ' !in r && HasNoUpper(r)
  {
    match c
    case CreateTable => "create"
    case Insert => "insert"
    case Select => "select"
    case Delete => "delete"
    case Drop => "drop"
    case Update => "update"
    case ShowTable => "showtb"
    case ShowDB => "showdb"
    case TableInfo => "tableinfo"
    case System => "sys"
  }

  /** A lower-case word without spaces is its own first token, lower-cased. */
  lemma WordIsFirstToken(w: string)
    requires ' ' !in w && HasNoUpper(w)
    ensures Lower(Split(w)[0]) == w
  {
    SplitNoSpace(w);
    LowerFixesLowercase(w);
  }

  /** The keyword lookup: a lower-cased word to its command. */
  function CommandOfWord(w: string): (r: Option<CommandType>)
    ensures r.Some? ==> CommandWord(r.value) == w
    ensures r.None? ==> forall c: CommandType :: CommandWord(c) != w
  {
    match w
    case "create" => Some(CreateTable)
    case "insert" => Some(Insert)
    case "select" => Some(Select)
    case "delete" => Some(Delete)
    case "drop" => Some(Drop)
    case "update" => Some(Update)
    case "showtb" => Some(ShowTable)
    case "showdb" => Some(ShowDB)
    case "tableinfo" => Some(TableInfo)
    case "sys" => Some(System)
    case _ => None
  }

  /** `CommandType::new`: the lower-cased first word must be one of the
      keywords; anything else, the empty word included, is rejected. */
  function CommandTypeNew(command: string): (r: Result<CommandType>)
    ensures r.Ok? ==> CommandWord(r.value) == Lower(Split(command)[0])
    ensures r.Err? ==> r.msg == InvalidCommand &&
                       forall c: CommandType :: CommandWord(c) != Lower(Split(command)[0])
  {
    match CommandOfWord(Lower(Split(command)[0]))
    case Some(c) => Ok(c)
    case None => Err(InvalidCommand)
  }

  /** Every keyword selects its own command, so no two commands share one. */
  lemma CommandWordRoundTrip(c: CommandType)
    ensures CommandTypeNew(CommandWord(c)) == Ok(c)
  {
    WordIsFirstToken(CommandWord(c));
    CommandOfWordRoundTrip(c);
  }

  lemma CommandOfWordRoundTrip(c: CommandType)
    ensures CommandOfWord(CommandWord(c)) == Some(c)
  {
    match c
    case CreateTable =>
    case Insert =>
    case Select =>
    case Delete =>
    case Drop =>
    case Update =>
    case ShowTable =>
    case ShowDB =>
    case TableInfo =>
    case System =>
  }

  /** Only the first word is looked at. */
  lemma CommandFirstWordOnly(word: string, rest: string)
    requires ' ' !in word
    ensures CommandTypeNew(word + " " + rest) == CommandTypeNew(word)
  {
    SplitAtSpace(word, rest);
    SplitNoSpace(word);
  }

  /** Two spellings of a word that differ only in case select the same
      command. */
  lemma CommandIgnoresCase(w1: string, w2: string)
    requires ' ' !in w1 && ' ' !in w2 && Lower(w1) == Lower(w2)
    ensures CommandTypeNew(w1) == CommandTypeNew(w2)
  {
    SplitNoSpace(w1);
    SplitNoSpace(w2);
  }

  /** A line that starts with a space has an empty first word and is
      rejected. */
  lemma LeadingSpaceIsInvalid(rest: string)
    ensures CommandTypeNew(" " + rest) == Err(InvalidCommand)
  {
    SplitAtSpace("", rest);
    assert "" + " " + rest == " " + rest;
  }

  lemma UpperCaseSelect(rest: string)
    ensures CommandTypeNew("SELECT " + rest) == Ok(Select)
  {
    CommandFirstWordOnly("SELECT", rest);
    assert "SELECT" + " " + rest == "SELECT " + rest;
    SplitNoSpace("SELECT");
    assert Lower("SELECT") == "select";
  }

  /** The system-command table. */
  function SysWord(c: SysCommand): (r: string)
    ensures ' ' !in r && HasNoUpper(r)
  {
    match c
    case CreateDatabase => "createdb"
    case UseDatabase => "usedb"
    case DropDatabase => "dropdb"
    case ShowDatabases => "showdb"
    case ChangePassword => "changepwd"
    case SysInfo => "showsys"
  }

  /** The system keyword lookup. */
  function SysCommandOfWord(w: string): (r: Option<SysCommand>)
    ensures r.Some? ==> SysWord(r.value) == w
    ensures r.None? ==> forall c: SysCommand :: SysWord(c) != w
  {
    match w
    case "createdb" => Some(CreateDatabase)
    case "usedb" => Some(UseDatabase)
    case "dropdb" => Some(DropDatabase)
    case "showdb" => Some(ShowDatabases)
    case "changepwd" => Some(ChangePassword)
    case "showsys" => Some(SysInfo)
    case _ => None
  }

  /** `SysCommand::new`: the lower-cased second word must be a system
      keyword; a line with a single word has no second word, which is an
      indexing failure. */
  function SysCommandNew(command: string): (r: Result<SysCommand>)
    ensures |Split(command)| < 2 ==> r == Err(IndexOutOfBounds)
    ensures |Split(command)| >= 2 && r.Ok? ==> SysWord(r.value) == Lower(Split(command)[1])
    ensures |Split(command)| >= 2 && r.Err? ==>
              r.msg == InvalidCommand && forall c: SysCommand :: SysWord(c) != Lower(Split(command)[1])
  {
    var vars := Split(command);
    if |vars| < 2 then Err(IndexOutOfBounds)
    else
      match SysCommandOfWord(Lower(vars[1]))
      case Some(c) => Ok(c)
      case None => Err(InvalidCommand)
  }

  lemma SysOfWordRoundTrip(c: SysCommand)
    ensures SysCommandOfWord(SysWord(c)) == Some(c)
  {
    match c
    case CreateDatabase =>
    case UseDatabase =>
    case DropDatabase =>
    case ShowDatabases =>
    case ChangePassword =>
    case SysInfo =>
  }

  /** Whatever the first word, a system keyword in second place selects its
      command. */
  lemma SysWordRoundTrip(first: string, c: SysCommand)
    requires ' ' !in first
    ensures SysCommandNew(first + " " + SysWord(c)) == Ok(c)
  {
    var w := SysWord(c);
    SplitAtSpace(first, w);
    WordIsFirstToken(w);
    SysOfWordRoundTrip(c);
    assert Split(first + " " + w)[1] == Split(w)[0];
  }

  /** Only the second word is looked at: neither the first word nor anything
      after the second changes the outcome. */
  lemma SysSecondWordOnly(first: string, other: string, word: string, rest: string)
    requires ' ' !in first && ' ' !in other && ' ' !in word
    ensures SysCommandNew(first + " " + word + " " + rest) == SysCommandNew(other + " " + word)
  {
    SplitAtSpace(first, word + " " + rest);
    assert first + " " + word + " " + rest == first + " " + (word + " " + rest);
    SplitAtSpace(word, rest);
    SplitAtSpace(other, word);
    SplitNoSpace(word);
  }

  /** A line of one word is an indexing failure, not an unknown command. */
  lemma SysSingleWord(word: string)
    requires ' ' !in word
    ensures SysCommandNew(word) == Err(IndexOutOfBounds)
  {
    SplitNoSpace(word);
  }
}
