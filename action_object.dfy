/** The unit of replication (src/Server/ActionObject.java). */
module Actions {

  import opened Wrappers

  datatype ActionKind = CREATE | MODIFY | DELETE

  /**
   * `data` is the real name for CREATE (possibly null), the new login name for
   * MODIFY, and null for DELETE.
   */
  datatype ActionObject = ActionObject(kind: ActionKind, loginName: string, password: string, data: Option<string>)

  /**
   * The actions the server can apply: a MODIFY carries its new login name (a
   * null one would make the table lookup throw, and no caller builds one).
   */
  type Action = a: ActionObject | a.kind != MODIFY || a.data.Some?
    witness ActionObject(DELETE, "", "", None)
}
