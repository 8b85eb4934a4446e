/** The stored resume record (the schema of models/Resume.ts), as the
    routes and the export read it. Every field may be absent in a document,
    so each is an Option; `createdAt` is a millisecond timestamp that the
    store fills in on insertion. `matchScore` and `matchExplanation` are
    the two keys the job-description match adds. */
module Records {
  import opened Wrappers

  datatype PersonalInfo = PersonalInfo(
    name: Option<string>,
    email: Option<string>,
    phone: Option<string>,
    location: Option<string>)

  datatype Education = Education(
    degree: Option<string>,
    institution: Option<string>,
    year: Option<string>,
    gpa: Option<string>)

  datatype Job = Job(
    title: Option<string>,
    company: Option<string>,
    duration: Option<string>,
    responsibilities: Option<seq<string>>)

  datatype Project = Project(
    name: Option<string>,
    description: Option<string>,
    technologies: Option<seq<string>>)

  datatype Resume = Resume(
    personalInfo: Option<PersonalInfo>,
    education: Option<seq<Education>>,
    experience: Option<seq<Job>>,
    projects: Option<seq<Project>>,
    skills: Option<seq<string>>,
    certifications: Option<seq<string>>,
    fileUrl: Option<string>,
    createdAt: int,
    matchScore: Option<int>,
    matchExplanation: Option<string>)

  /** How a template literal shows a field: the string itself, or the
      text "undefined" when the field is absent. */
  function Show(o: Option<string>): string {
    match o
    case Some(s) => s
    case None => "undefined"
  }

  /** `x || ''` on an optional string: absent and empty both become ''. */
  function OrEmpty(o: Option<string>): string {
    o.GetOr("")
  }
}
