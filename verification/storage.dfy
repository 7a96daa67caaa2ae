/** The local-storage keys under which the dashboard's components keep
    their data; every component and the settings backup read and write
    the same names. */
module Storage {
  const TasksKey: string := "todoTasks"
  const HabitsKey: string := "habits"
  const LinksKey: string := "importantLinks"
  const NotesKey: string := "notes"
  const SettingsKey: string := "appSettings"
  const ExcelFilesKey: string := "excelFiles"
}
