/**
 * The values exchanged between the backend and the frontend's grid view:
 * one exam record per (course, day, time slot), the course suggestions, and the background colours
 * the grid paints its cells with.
 */
module Schedule {

  /** One row of the backend's `data_sheet`: `{Day, Date, Time Slot, Course Code, Course Name}`. */
  datatype Record = Record(day: string, date: string, timeSlot: string, courseCode: string, courseName: string)

  /** The course identity key `"code - name"` the grid shows and colours by. */
  function CourseKey(r: Record): string {
    r.courseCode + " - " + r.courseName
  }

  /** One entry of the backend's `/courses` answer: `{code, name}`. */
  datatype Course = Course(code: string, name: string)

  /** A cell background: the neutral `"white"` or an `hsl(h, s%, l%)` colour. */
  datatype Color = White | Hsl(hue: int, saturation: int, lightness: int)
}
