/**
 * pkg/sql/database.go, NewDatabase only: it completes the caller's
 * DatabaseOptions in place (a default file, the SQLite query string, and
 * defaults for the zero-valued pool limits) and copies them into a new
 * Database. Durations are whole nanoseconds, as time.Duration is.
 */
module Sql {
  import opened Text

  /** The database file used when no URL is given. */
  const DefaultURL := "./transactions.db"

  /** Shared cache, create if missing, WAL journal, a 5 s busy timeout, foreign keys on. */
  const Query := "?cache=shared&mode=rwc&_journal=WAL&_timeout=5000&_fk=true"

  /** The option values, as a value. */
  datatype Settings = Settings(
    url: string,
    maxOpenConnections: int,
    maxIdleConnections: int,
    connectionMaxLifetime: int,
    connectionMaxIdleTime: int)

  /** A zero-valued DatabaseOptions, which is what a nil one stands for. */
  const Zero := Settings("", 0, 0, 0, 0)

  /** What NewDatabase turns option values into. */
  function Completed(o: Settings): Settings
  {
    Settings(
      (if o.url == "" then DefaultURL else o.url) + Query,
      if o.maxOpenConnections == 0 then 1 else o.maxOpenConnections,
      if o.maxIdleConnections == 0 then 1 else o.maxIdleConnections,
      if o.connectionMaxLifetime == 0 then -1 else o.connectionMaxLifetime,
      if o.connectionMaxIdleTime == 0 then -1 else o.connectionMaxIdleTime)
  }

  /**
   * The completed URL always ends with the query string, after the given
   * URL, or after the default file when none was given.
   */
  lemma CompletedURL(o: Settings)
    ensures HasSuffix(Completed(o).url, Query)
    ensures var u := Completed(o).url; u[..|u| - |Query|] == if o.url == "" then DefaultURL else o.url
  {
  }

  /** No completed option is zero, and every option that was not zero is kept. */
  lemma CompletedLimits(o: Settings)
    ensures var c := Completed(o);
      c.maxOpenConnections != 0 && c.maxIdleConnections != 0 &&
      c.connectionMaxLifetime != 0 && c.connectionMaxIdleTime != 0
    ensures var c := Completed(o);
      (o.maxOpenConnections != 0 ==> c.maxOpenConnections == o.maxOpenConnections) &&
      (o.maxIdleConnections != 0 ==> c.maxIdleConnections == o.maxIdleConnections) &&
      (o.connectionMaxLifetime != 0 ==> c.connectionMaxLifetime == o.connectionMaxLifetime) &&
      (o.connectionMaxIdleTime != 0 ==> c.connectionMaxIdleTime == o.connectionMaxIdleTime)
  {
  }

  /**
   * Completing twice changes nothing more than the URL, which then carries
   * the query string twice.
   */
  lemma CompletedTwice(o: Settings)
    ensures Completed(Completed(o)) == Completed(o).(url := Completed(o).url + Query)
    ensures HasSuffix(Completed(Completed(o)).url, Query + Query)
  {
    var u := Completed(o).url;
    assert Completed(Completed(o)).url == u + Query;
    assert (u + Query)[|u + Query| - |Query + Query|..] == Query + Query;
  }

  /** DatabaseOptions, a struct the caller owns and NewDatabase writes to. */
  class DatabaseOptions {
    var url: string
    var maxOpenConnections: int
    var maxIdleConnections: int
    var connectionMaxLifetime: int
    var connectionMaxIdleTime: int

    constructor (s: Settings)
      ensures Values() == s
    {
      url := s.url;
      maxOpenConnections := s.maxOpenConnections;
      maxIdleConnections := s.maxIdleConnections;
      connectionMaxLifetime := s.connectionMaxLifetime;
      connectionMaxIdleTime := s.connectionMaxIdleTime;
    }

    function Values(): Settings
      reads this
    {
      Settings(url, maxOpenConnections, maxIdleConnections, connectionMaxLifetime, connectionMaxIdleTime)
    }
  }

  /** Database, restricted to the settings NewDatabase fills in; the connection itself is not modelled. */
  class Database {
    const url: string
    const maxOpenConnections: int
    const maxIdleConnections: int
    const connectionMaxLifetime: int
    const connectionMaxIdleTime: int

    constructor (s: Settings)
      ensures Values() == s
    {
      url := s.url;
      maxOpenConnections := s.maxOpenConnections;
      maxIdleConnections := s.maxIdleConnections;
      connectionMaxLifetime := s.connectionMaxLifetime;
      connectionMaxIdleTime := s.connectionMaxIdleTime;
    }

    function Values(): Settings
    {
      Settings(url, maxOpenConnections, maxIdleConnections, connectionMaxLifetime, connectionMaxIdleTime)
    }
  }

  /**
   * NewDatabase: the options, or zero options for nil, are completed in
   * place, so the caller's struct is changed (and a second call on it
   * appends the query string again), and the new Database holds the
   * completed values.
   */
  method NewDatabase(opts: DatabaseOptions?) returns (d: Database)
    modifies opts
    ensures fresh(d)
    ensures opts != null ==> opts.Values() == Completed(old(opts.Values()))
    ensures d.Values() == Completed(if opts != null then old(opts.Values()) else Zero)
  {
    var o := opts;
    if o == null {
      o := new DatabaseOptions(Zero);
    }
    if o.url == "" {
      o.url := DefaultURL;
    }
    o.url := o.url + Query;
    if o.maxOpenConnections == 0 {
      o.maxOpenConnections := 1;
    }
    if o.maxIdleConnections == 0 {
      o.maxIdleConnections := 1;
    }
    if o.connectionMaxLifetime == 0 {
      o.connectionMaxLifetime := -1;
    }
    if o.connectionMaxIdleTime == 0 {
      o.connectionMaxIdleTime := -1;
    }
    d := new Database(o.Values());
  }
}
