/** The record types of the resume builder (src/types/index.ts). */
module Types {
  import opened Wrappers

  datatype User = User(id: string, email: string, name: string, createdAt: string)

  /** Optional properties (`website?` and the like) are `Option`s. */
  datatype PersonalInfo = PersonalInfo(
    fullName: string,
    email: string,
    phone: string,
    location: string,
    website: Option<string>,
    linkedin: Option<string>,
    github: Option<string>,
    summary: string)

  datatype Education = Education(
    id: string,
    institution: string,
    degree: string,
    field: string,
    startDate: string,
    endDate: string,
    gpa: Option<string>,
    description: Option<string>)

  datatype Experience = Experience(
    id: string,
    company: string,
    position: string,
    startDate: string,
    endDate: string,
    current: bool,
    description: string,
    location: string)

  datatype Level = Beginner | Intermediate | Advanced | Expert

  datatype Category = Technical | Soft | Language | Other

  datatype Skill = Skill(id: string, name: string, level: Level, category: Category)

  datatype Resume = Resume(
    id: string,
    userId: string,
    title: string,
    personalInfo: PersonalInfo,
    education: seq<Education>,
    experience: seq<Experience>,
    skills: seq<Skill>,
    createdAt: string,
    updatedAt: string)

  datatype AuthState = AuthState(user: Option<User>, isAuthenticated: bool, loading: bool)
}
