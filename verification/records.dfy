/** The student-mark record shared by the server, the report view and the
    admin console, and the JavaScript `Number(...)` reading of a mark. */
module Records {

  datatype Option<T> = None | Some(value: T)

  /** A mark as it reaches the code: the empty string of a blank form field,
      `null`, a number (or a numeric string, which reads the same), a string
      that is not a number at all, or no `mark` field in the row at all
      (`undefined`). Marks are whole numbers here. */
  datatype Mark = Blank | Null | Number(value: int) | NotANumber | Absent

  datatype Subject = Subject(subjectName: string, mark: Mark)

  /** One stored exam result of one student. `id` is the identity the store
      assigns; `createdAt` and `updatedAt` are readings of the store's clock. */
  datatype Record = Record(
    id: nat,
    name: string,
    fatherName: string,
    registerNumber: string,
    className: string,
    examType: string,
    subjects: seq<Subject>,
    createdAt: nat,
    updatedAt: nat)

  /** A JavaScript number restricted to what marks produce. */
  datatype JsNumber = Finite(value: int) | NaN

  /** `Number(mark)`: the empty string and `null` both read as 0, and a
      non-numeric string and `undefined` read as NaN. */
  function ToNumber(m: Mark): (n: JsNumber)
    ensures n.NaN? <==> m.NotANumber? || m.Absent?
    ensures m.Number? ==> n == Finite(m.value)
    ensures m.Blank? || m.Null? ==> n == Finite(0)
  {
    match m
    case Blank => Finite(0)
    case Null => Finite(0)
    case Number(v) => Finite(v)
    case NotANumber => NaN
    case Absent => NaN
  }
}
