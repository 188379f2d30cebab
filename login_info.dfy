/** The identity record stored per login name (src/Server/LoginInfo.java). */
module LoginInfos {

  import opened Wrappers

  /**
   * A `java.util.Date`, represented by the text `Date.toString` prints for it.
   * Its value comes from `new Date()`, which the model takes as a parameter.
   */
  type Date = string

  /**
   * Every field but `loginName` is final in the source. `realName` and
   * `creatorIpAddr` may be null.
   */
  datatype LoginInfo = LoginInfo(
    loginName: string,
    uuid: string,
    realName: Option<string>,
    creatorIpAddr: Option<string>,
    createdDate: Date,
    lastChangeDate: Date,
    password: string)

  /** The server's `HashMap<String, LoginInfo>`, keyed by login name. */
  type Table = map<string, LoginInfo>

  /** The fields of `a` and `b` that the source declares final agree. */
  predicate SameFinalFields(a: LoginInfo, b: LoginInfo)
  {
    && a.uuid == b.uuid
    && a.realName == b.realName
    && a.creatorIpAddr == b.creatorIpAddr
    && a.createdDate == b.createdDate
    && a.lastChangeDate == b.lastChangeDate
    && a.password == b.password
  }

  /**
   * The constructor. `uuid` is the result of `UUID.randomUUID()` and `now` the
   * result of `new Date()`; `lastChangeDate` is the same Date as `createdDate`.
   */
  function NewLoginInfo(loginName: string, realName: Option<string>, password: string,
                        creatorIpAddr: Option<string>, uuid: string, now: Date): (r: LoginInfo)
    ensures r.loginName == loginName && r.realName == realName && r.password == password
    ensures r.creatorIpAddr == creatorIpAddr && r.uuid == uuid
    ensures r.createdDate == now && r.lastChangeDate == r.createdDate
  {
    LoginInfo(loginName, uuid, realName, creatorIpAddr, now, now, password)
  }

  /**
   * `changeLoginName`. The source updates the field of the one object in place;
   * here the record is a value and the result is the updated record.
   */
  function ChangeLoginName(info: LoginInfo, newName: string): (r: LoginInfo)
    ensures r.loginName == newName
    ensures SameFinalFields(r, info)
  {
    info.(loginName := newName)
  }

  /** A null reference concatenated to a string prints as "null". */
  function OrNull(s: Option<string>): string
  {
    if s.Some? then s.value else "null"
  }

  /**
   * `toString`: every field but the password. The text is built from the
   * suffixes below, grouped to the right; string concatenation is associative,
   * so the text is the source's.
   */
  function ToString(info: LoginInfo): string
  {
    "LoginInfo{loginName=" + (info.loginName + FromUuid(info))
  }

  function FromUuid(info: LoginInfo): string
  {
    ", uuid=" + (info.uuid + FromRealName(info))
  }

  function FromRealName(info: LoginInfo): string
  {
    ", realName='" + (OrNull(info.realName) + FromCreatorIpAddr(info))
  }

  function FromCreatorIpAddr(info: LoginInfo): string
  {
    "', creatorIpAddr='" + (OrNull(info.creatorIpAddr) + FromCreatedDate(info))
  }

  function FromCreatedDate(info: LoginInfo): string
  {
    "', createdDate=" + (info.createdDate + FromLastChangeDate(info))
  }

  function FromLastChangeDate(info: LoginInfo): string
  {
    ", lastChangeDate=" + (info.lastChangeDate + "}")
  }

  lemma LeftCancel(a: string, s: string, t: string)
    requires a + s == a + t
    ensures s == t
  {
    assert s == (a + s)[|a|..];
    assert t == (a + t)[|a|..];
  }

  lemma RightCancel(s: string, t: string, b: string)
    requires s + b == t + b
    ensures s == t
  {
    assert |s| == |t|;
    assert s == (s + b)[..|s|];
    assert t == (t + b)[..|t|];
  }

  /** `toString` tells apart two records that differ only in their login name. */
  lemma ToStringShowsLoginName(info: LoginInfo, x: string, y: string)
    requires ToString(info.(loginName := x)) == ToString(info.(loginName := y))
    ensures x == y
  {
    var i, j := info.(loginName := x), info.(loginName := y);
    LeftCancel("LoginInfo{loginName=", x + FromUuid(i), y + FromUuid(j));
    RightCancel(x, y, FromUuid(i));
  }

  /** `toString` tells apart two records that differ only in their uuid. */
  lemma ToStringShowsUuid(info: LoginInfo, x: string, y: string)
    requires ToString(info.(uuid := x)) == ToString(info.(uuid := y))
    ensures x == y
  {
    var i, j := info.(uuid := x), info.(uuid := y);
    LeftCancel("LoginInfo{loginName=", info.loginName + FromUuid(i), info.loginName + FromUuid(j));
    LeftCancel(info.loginName, FromUuid(i), FromUuid(j));
    LeftCancel(", uuid=", x + FromRealName(i), y + FromRealName(j));
    RightCancel(x, y, FromRealName(i));
  }

  /** `toString` tells apart two records that differ only in their (non-null) real name. */
  lemma ToStringShowsRealName(info: LoginInfo, x: string, y: string)
    requires ToString(info.(realName := Some(x))) == ToString(info.(realName := Some(y)))
    ensures x == y
  {
    var i, j := info.(realName := Some(x)), info.(realName := Some(y));
    LeftCancel("LoginInfo{loginName=", info.loginName + FromUuid(i), info.loginName + FromUuid(j));
    LeftCancel(info.loginName, FromUuid(i), FromUuid(j));
    LeftCancel(", uuid=", info.uuid + FromRealName(i), info.uuid + FromRealName(j));
    LeftCancel(info.uuid, FromRealName(i), FromRealName(j));
    LeftCancel(", realName='", x + FromCreatorIpAddr(i), y + FromCreatorIpAddr(j));
    RightCancel(x, y, FromCreatorIpAddr(i));
  }

  /** `toString` tells apart two records that differ only in their (non-null) creator address. */
  lemma ToStringShowsCreatorIpAddr(info: LoginInfo, x: string, y: string)
    requires ToString(info.(creatorIpAddr := Some(x))) == ToString(info.(creatorIpAddr := Some(y)))
    ensures x == y
  {
    var i, j := info.(creatorIpAddr := Some(x)), info.(creatorIpAddr := Some(y));
    var shown := OrNull(info.realName);
    LeftCancel("LoginInfo{loginName=", info.loginName + FromUuid(i), info.loginName + FromUuid(j));
    LeftCancel(info.loginName, FromUuid(i), FromUuid(j));
    LeftCancel(", uuid=", info.uuid + FromRealName(i), info.uuid + FromRealName(j));
    LeftCancel(info.uuid, FromRealName(i), FromRealName(j));
    LeftCancel(", realName='", shown + FromCreatorIpAddr(i), shown + FromCreatorIpAddr(j));
    LeftCancel(shown, FromCreatorIpAddr(i), FromCreatorIpAddr(j));
    LeftCancel("', creatorIpAddr='", x + FromCreatedDate(i), y + FromCreatedDate(j));
    RightCancel(x, y, FromCreatedDate(i));
  }

  /** `toString` tells apart two records that differ only in their creation date. */
  lemma ToStringShowsCreatedDate(info: LoginInfo, x: Date, y: Date)
    requires ToString(info.(createdDate := x)) == ToString(info.(createdDate := y))
    ensures x == y
  {
    var i, j := info.(createdDate := x), info.(createdDate := y);
    var shown, ip := OrNull(info.realName), OrNull(info.creatorIpAddr);
    LeftCancel("LoginInfo{loginName=", info.loginName + FromUuid(i), info.loginName + FromUuid(j));
    LeftCancel(info.loginName, FromUuid(i), FromUuid(j));
    LeftCancel(", uuid=", info.uuid + FromRealName(i), info.uuid + FromRealName(j));
    LeftCancel(info.uuid, FromRealName(i), FromRealName(j));
    LeftCancel(", realName='", shown + FromCreatorIpAddr(i), shown + FromCreatorIpAddr(j));
    LeftCancel(shown, FromCreatorIpAddr(i), FromCreatorIpAddr(j));
    LeftCancel("', creatorIpAddr='", ip + FromCreatedDate(i), ip + FromCreatedDate(j));
    LeftCancel(ip, FromCreatedDate(i), FromCreatedDate(j));
    LeftCancel("', createdDate=", x + FromLastChangeDate(i), y + FromLastChangeDate(j));
    RightCancel(x, y, FromLastChangeDate(i));
  }

  /** `toString` tells apart two records that differ only in their last-change date. */
  lemma ToStringShowsLastChangeDate(info: LoginInfo, x: Date, y: Date)
    requires ToString(info.(lastChangeDate := x)) == ToString(info.(lastChangeDate := y))
    ensures x == y
  {
    var i, j := info.(lastChangeDate := x), info.(lastChangeDate := y);
    var shown, ip := OrNull(info.realName), OrNull(info.creatorIpAddr);
    LeftCancel("LoginInfo{loginName=", info.loginName + FromUuid(i), info.loginName + FromUuid(j));
    LeftCancel(info.loginName, FromUuid(i), FromUuid(j));
    LeftCancel(", uuid=", info.uuid + FromRealName(i), info.uuid + FromRealName(j));
    LeftCancel(info.uuid, FromRealName(i), FromRealName(j));
    LeftCancel(", realName='", shown + FromCreatorIpAddr(i), shown + FromCreatorIpAddr(j));
    LeftCancel(shown, FromCreatorIpAddr(i), FromCreatorIpAddr(j));
    LeftCancel("', creatorIpAddr='", ip + FromCreatedDate(i), ip + FromCreatedDate(j));
    LeftCancel(ip, FromCreatedDate(i), FromCreatedDate(j));
    LeftCancel("', createdDate=", info.createdDate + FromLastChangeDate(i), info.createdDate + FromLastChangeDate(j));
    LeftCancel(info.createdDate, FromLastChangeDate(i), FromLastChangeDate(j));
    LeftCancel(", lastChangeDate=", x + "}", y + "}");
    RightCancel(x, y, "}");
  }

  /**
   * `toString` never depends on the password: two records that differ only in
   * their password print the same text.
   */
  lemma ToStringHidesPassword(info: LoginInfo, p: string)
    ensures ToString(info.(password := p)) == ToString(info)
  {
  }
}
