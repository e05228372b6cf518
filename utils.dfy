/** The older front-end helpers of src/utils.rs: a five-way command table,
    the stored password, and the system login. */
module Utils {
  import opened Wrappers
  import opened Strings
  import Commands

  // ---------------------------------------------------------------------
  // The older command table

  datatype CommandType = CreateTable | Insert | Select | ShowTable | System

  function CommandWord(c: CommandType): (r: string)
    ensures ' ' !in r && HasNoUpper(r)
  {
    match c
    case CreateTable => "create"
    case Insert => "insert"
    case Select => "select"
    case ShowTable => "show"
    case System => "sys"
  }

  function CommandOfWord(w: string): (r: Option<CommandType>)
    ensures r.Some? ==> CommandWord(r.value) == w
    ensures r.None? ==> forall c: CommandType :: CommandWord(c) != w
  {
    match w
    case "create" => Some(CreateTable)
    case "insert" => Some(Insert)
    case "select" => Some(Select)
    case "show" => Some(ShowTable)
    case "sys" => Some(System)
    case _ => None
  }

  /** The older `CommandType::new`: the lower-cased first word against the
      five keywords. The older `SysCommand::new` is the same table as the
      current one and is modelled by `Commands.SysCommandNew`. */
  function CommandTypeNew(command: string): (r: Result<CommandType>)
    ensures r.Ok? ==> CommandWord(r.value) == Lower(Split(command)[0])
    ensures r.Err? ==> r.msg == Commands.InvalidCommand &&
                       forall c: CommandType :: CommandWord(c) != Lower(Split(command)[0])
  {
    match CommandOfWord(Lower(Split(command)[0]))
    case Some(c) => Ok(c)
    case None => Err(Commands.InvalidCommand)
  }

  lemma CommandOfWordRoundTrip(c: CommandType)
    ensures CommandOfWord(CommandWord(c)) == Some(c)
  {
    match c
    case CreateTable =>
    case Insert =>
    case Select =>
    case ShowTable =>
    case System =>
  }

  /** Each keyword, followed by anything, selects its command. */
  lemma CommandWordRoundTrip(c: CommandType, rest: string)
    ensures CommandTypeNew(CommandWord(c) + " " + rest) == Ok(c)
  {
    SplitAtSpace(CommandWord(c), rest);
    Commands.WordIsFirstToken(CommandWord(c));
    SplitNoSpace(CommandWord(c));
    CommandOfWordRoundTrip(c);
  }

  /** The two tables agree on the words they share; "show" is only known to
      the older one. */
  lemma OlderTableAgrees(c: CommandType)
    requires c != ShowTable
    ensures Commands.CommandTypeNew(CommandWord(c)).Ok?
    ensures Commands.CommandWord(Commands.CommandTypeNew(CommandWord(c)).value) == CommandWord(c)
  {
    Commands.WordIsFirstToken(CommandWord(c));
    match c
    case CreateTable => Commands.CommandOfWordRoundTrip(Commands.CreateTable);
    case Insert => Commands.CommandOfWordRoundTrip(Commands.Insert);
    case Select => Commands.CommandOfWordRoundTrip(Commands.Select);
    case System => Commands.CommandOfWordRoundTrip(Commands.System);
  }

  lemma ShowIsOnlyOlder()
    ensures CommandTypeNew("show") == Ok(ShowTable)
    ensures Commands.CommandTypeNew("show") == Err(Commands.InvalidCommand)
  {
    Commands.WordIsFirstToken("show");
  }

  // ---------------------------------------------------------------------
  // Password and login

  /** A stored password. The digest (SHA-256 rendered in hex) is a
      deterministic function fixed when the password is made. */
  class Password {
    const hash: string -> string
    var hashedPassword: string

    /** `Password::new`: the password is stored hashed, and it checks. */
    constructor (hash: string -> string, password: string)
      ensures this.hash == hash && hashedPassword == hash(password)
      ensures CheckPassword(password)
    {
      this.hash := hash;
      hashedPassword := hash(password);
    }

    /** `check_password`: the candidate's digest equals the stored one. */
    predicate CheckPassword(password: string): (ok: bool)
      reads this
      ensures ok <==> hash(password) == hashedPassword
    {
      hash(password) == hashedPassword
    }

    /** `set_password`: only the stored digest changes, and the new password
        checks from then on. */
    method SetPassword(newPassword: string)
      modifies this`hashedPassword
      ensures hashedPassword == hash(newPassword)
      ensures CheckPassword(newPassword)
    {
      hashedPassword := hash(newPassword);
    }
  }

  ghost predicate Injective(hash: string -> string) {
    forall a, b :: hash(a) == hash(b) ==> a == b
  }

  /** With a collision-free digest, exactly the password last stored
      checks. `Injective` cannot hold for SHA-256, whose outputs are fixed
      length while its inputs are not, so this is an idealisation: for the
      real digest, every candidate that collides with the stored password
      checks as well. */
  lemma CheckOnlyStored(p: Password, stored: string, candidate: string)
    requires Injective(p.hash) && p.hashedPassword == p.hash(stored)
    ensures p.CheckPassword(candidate) <==> candidate == stored
  {
  }

  /** The configured system account. Its fields are loaded from a file in
      the source; here they are given to the constructor. */
  class DbSystem {
    const sysName: string
    const sysUsername: string
    const sysPassword: Password

    constructor (name: string, username: string, password: Password)
      ensures sysName == name && sysUsername == username && sysPassword == password
    {
      sysName := name;
      sysUsername := username;
      sysPassword := password;
    }

    /** `login`: both the user name and the password must match. */
    method Login(username: string, password: string) returns (status: bool)
      ensures status <==> username == sysUsername && sysPassword.CheckPassword(password)
    {
      status := true;
      status := status && username == sysUsername;
      status := status && sysPassword.CheckPassword(password);
    }
  }
}
