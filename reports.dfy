/** The records the progress-report page holds, as the backend returns them. */
module Reports {

  datatype Option<+T> = None | Some(value: T)

  /** `projectId` arrives either as a bare identifier or as an embedded
      project object whose `_id` is the identifier; `Absent` is a record
      without the key. */
  datatype ProjectRef = Bare(value: string) | Embedded(id: string) | Absent

  datatype ApplicationPotential = ApplicationPotential(longTerm: string, immediate: string)

  datatype Achievements = Achievements(
    summaryOfProgress: string,
    newObservations: string,
    innovations: string,
    applicationPotential: ApplicationPotential,
    otherAchievements: string)

  /** One unread progress report; `id` is the record's `_id`. */
  datatype Report = Report(
    id: string,
    projectId: ProjectRef,
    projectTitle: string,
    principalInvestigator: seq<string>,
    currentYear: int,
    researchArea: string,
    approvedObjectives: seq<string>,
    methodology: string,
    researchAchievements: Achievements)

  /** The `filters` state. `year` is the already-parsed year input (None
      when the input is empty); `None` for a text query means the field was
      never set. */
  datatype FilterCriteria = FilterCriteria(
    year: Option<int>,
    projectTitle: Option<string>,
    principalInvestigator: Option<string>)
}
