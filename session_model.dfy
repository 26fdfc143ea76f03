/** The stored Session record. Its `code` is unique across the collection (the store keeps
    sessions keyed by code), `teacherId` is required, `isActive` defaults to true. */
module SessionModel {

  datatype Session = Session(
    code: string,
    teacherId: string,
    startTime: int,
    participants: seq<string>,
    isActive: bool)

  /** `new Session({code, teacherId})` followed by validation: both fields are required;
      `startTime` defaults to the current time, `participants` to [] and `isActive` to true. */
  function NewSession(code: string, teacherId: string, now: int): (r: Session)
    ensures r.code == code && r.teacherId == teacherId && r.startTime == now
    ensures r.participants == [] && r.isActive
  {
    Session(code, teacherId, now, [], true)
  }

  /** The required-field validation run by save. */
  predicate SessionValid(s: Session) {
    s.code != "" && s.teacherId != ""
  }
}
