/** The records the application stores and passes around. */
module TaskTypes {
  import opened Wrappers

  /** One to-do item. `date` is `YYYY-MM-DD`, `time` is `HH:MM`, the timestamps are ISO strings. */
  datatype Task = Task(
    id: string,
    title: string,
    description: string,
    date: string,
    time: string,
    completed: bool,
    createdAt: string,
    updatedAt: string)

  /** The single user profile. */
  datatype Profile = Profile(firstName: string, lastName: string, imageUrl: string)

  /** `Omit<Task, 'id' | 'createdAt' | 'updatedAt'>`: what the task form produces and `addTask` takes. */
  datatype TaskData = TaskData(title: string, description: string, date: string, time: string, completed: bool)

  /** `Partial<Task>`: any of the eight fields, each present or absent. */
  datatype TaskPatch = TaskPatch(
    id: Option<string>,
    title: Option<string>,
    description: Option<string>,
    date: Option<string>,
    time: Option<string>,
    completed: Option<bool>,
    createdAt: Option<string>,
    updatedAt: Option<string>)
}
