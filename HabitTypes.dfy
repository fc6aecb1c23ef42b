/** The records of src/types/habit.ts. */
module HabitTypes {

  datatype HabitCategory = Health | Productivity | Learning | Social | Mindfulness | Creative

  /**
   * One tracked habit. `completions` maps a date key (`YYYY-MM-DD`) to
   * whether the habit was done that day; a missing key means not done.
   */
  datatype Habit = Habit(
    id: string,
    name: string,
    category: HabitCategory,
    color: string,
    createdAt: string,
    completions: map<string, bool>)

  /** The statistics derived from one habit's completions. */
  datatype HabitStats = HabitStats(
    currentStreak: int,
    longestStreak: int,
    totalCompletions: int,
    completionRate: int)
}
