/**
 * The request bodies and the data annotations ASP.NET checks on them
 * before a controller action runs (`ModelState.IsValid`).
 */
module Dtos {
  import opened Wrappers
  import opened Text

  /** `[Required]` on a string: present, and neither empty nor white space only. */
  predicate RequiredHolds(s: Option<string>) {
    !IsNullOrWhiteSpace(s)
  }

  /** `[StringLength(max, MinimumLength = min)]`: an absent value passes; otherwise its UTF-16 length is bounded. */
  predicate StringLengthHolds(s: Option<string>, min: nat, max: nat) {
    s.None? || min <= Utf16Length(s.value) <= max
  }

  datatype ProjectCreateDto = ProjectCreateDto(title: Option<string>, description: Option<string>)

  predicate ValidProjectCreate(dto: ProjectCreateDto) {
    && RequiredHolds(dto.title) && StringLengthHolds(dto.title, 3, 100)
    && StringLengthHolds(dto.description, 0, 500)
  }

  /** The bound body of a task create or update; `projectId` 0 means the body named no project. */
  datatype TaskCreateDto = TaskCreateDto(title: Option<string>, dueDate: Option<int>, projectId: int, isCompleted: bool)

  /** `[Required]` on the title; `[Required]` on the int ProjectId can never fail. */
  predicate ValidTaskCreate(dto: TaskCreateDto) {
    RequiredHolds(dto.title)
  }

  /** A task body as sent, with any member omitted. */
  datatype TaskCreateBody = TaskCreateBody(title: Option<string>, dueDate: Option<int>, projectId: Option<int>, isCompleted: Option<bool>)

  /** Binding fills omitted members with the DTO's defaults: no due date, project 0, not completed. */
  function BindTaskCreate(body: TaskCreateBody): TaskCreateDto {
    TaskCreateDto(
      body.title,
      body.dueDate,
      if body.projectId.Some? then body.projectId.value else 0,
      if body.isCompleted.Some? then body.isCompleted.value else false)
  }

  /** A body that sends every member binds to exactly the DTO it spells out. */
  lemma BindExplicitBody(dto: TaskCreateDto)
    ensures BindTaskCreate(TaskCreateBody(dto.title, dto.dueDate, Some(dto.projectId), Some(dto.isCompleted))) == dto
  {
  }

  datatype RegisterDto = RegisterDto(username: Option<string>, password: Option<string>)

  predicate ValidRegister(dto: RegisterDto) {
    && RequiredHolds(dto.username) && StringLengthHolds(dto.username, 3, 100)
    && RequiredHolds(dto.password) && StringLengthHolds(dto.password, 6, 100)
  }

  /**
   * A valid registration names a user of 3 to 100 and a password of 6 to
   * 100 UTF-16 code units, neither blank. Counted in characters, that is
   * 2 to 100 and 3 to 100, since a surrogate pair is one character.
   */
  lemma ValidRegisterBounds(dto: RegisterDto)
    requires ValidRegister(dto)
    ensures dto.username.Some? && 3 <= Utf16Length(dto.username.value) <= 100 && !IsBlank(dto.username.value)
    ensures dto.password.Some? && 6 <= Utf16Length(dto.password.value) <= 100 && !IsBlank(dto.password.value)
    ensures 2 <= |dto.username.value| <= 100 && 3 <= |dto.password.value| <= 100
  {
  }

  /** Two characters outside the Basic Multilingual Plane make a title of length 4: long enough. */
  lemma SurrogatePairTitleAccepted()
    ensures ValidProjectCreate(ProjectCreateDto(Some("\U{1F600}\U{1F600}"), None))
  {
  }

  /** A title of the right length is still refused when it is white space only. */
  lemma BlankTitleRefused(title: string, description: Option<string>)
    requires 3 <= Utf16Length(title) <= 100 && IsBlank(title)
    ensures !ValidProjectCreate(ProjectCreateDto(Some(title), description))
    ensures !ValidTaskCreate(TaskCreateDto(Some(title), None, 0, false))
  {
  }
}
