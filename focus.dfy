/** The focus relay of the classroom sockets: a student's focus status is forwarded to the room. */
module Focus {
  import opened Events

  /** `focus:update`: when the room, the student or the status is absent or empty nothing is
      emitted; otherwise exactly one `focus:receive` carrying the student and the status goes
      to the named room. */
  function FocusRelay(d: FocusUpdate): (e: seq<Emit>)
    ensures e == [] <==> d.roomId == "" || d.studentId == "" || d.status == ""
    ensures e != [] ==> |e| == 1 && e[0].target == Room(d.roomId)
    ensures e != [] ==> e[0].msg == FocusReceiveMsg(FocusReceive(d.studentId, d.status))
  {
    if d.roomId == "" || d.studentId == "" || d.status == "" then []
    else [Emit(Room(d.roomId), FocusReceiveMsg(FocusReceive(d.studentId, d.status)))]
  }
}
