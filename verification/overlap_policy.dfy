/** The per-subject overlap policy: when the same subject may run at once
    for overlapping populations (a grade-wide level class next to the
    grade's ordinary classes), and the add-only grant that widens it. */
module OverlapPolicy {
  import opened Basics
  import opened Types

  /** The grades listed in a config's `allowOverlapByGrade`, `[]` when absent. */
  function GrantedGrades(c: SubjectConfig): seq<int> {
    if c.allowOverlapByGrade.Some? then c.allowOverlapByGrade.value else []
  }

  /** `config?.allowOverlap || config?.allowOverlapByGrade?.includes(grade)`:
      the subject's config exists and allows overlap globally or for the grade. */
  predicate OverlapAllowed(configs: map<string, SubjectConfig>, subject: string, grade: int) {
    subject in configs && (configs[subject].allowOverlap || grade in GrantedGrades(configs[subject]))
  }

  /** `addSubjectGradeOverlap`: append the grade to the subject's
      `allowOverlapByGrade` unless it is already there, starting from
      `{ allowOverlap: false }` for a subject without a config. */
  function AddSubjectGradeOverlap(configs: map<string, SubjectConfig>, subject: string, grade: int)
    : (r: map<string, SubjectConfig>)
    ensures r.Keys == configs.Keys + {subject}
    ensures forall s :: s in configs && s != subject ==> r[s] == configs[s]
    ensures r[subject].allowOverlap == (subject in configs && configs[subject].allowOverlap)
    ensures subject in configs ==> r[subject].syncGradeClasses == configs[subject].syncGradeClasses
    ensures subject !in configs ==> r[subject].syncGradeClasses.None?
    ensures subject in configs && grade in GrantedGrades(configs[subject]) ==> r == configs
    ensures !(subject in configs && grade in GrantedGrades(configs[subject])) ==>
              GrantedGrades(r[subject])
                == (if subject in configs then GrantedGrades(configs[subject]) else []) + [grade]
  {
    var current := if subject in configs then configs[subject] else SubjectConfig(false, None, None);
    var currentGrades := GrantedGrades(current);
    if grade !in currentGrades then
      configs[subject := current.(allowOverlapByGrade := Some(currentGrades + [grade]))]
    else
      configs
  }

  /** After the grant, overlap is allowed for exactly what was allowed before
      plus the granted subject and grade. */
  lemma GrantAllowsExactly(configs: map<string, SubjectConfig>, subject: string, grade: int,
                           s: string, g: int)
    ensures OverlapAllowed(AddSubjectGradeOverlap(configs, subject, grade), s, g)
        <==> OverlapAllowed(configs, s, g) || (s == subject && g == grade)
  {
    var r := AddSubjectGradeOverlap(configs, subject, grade);
    if s == subject && !(subject in configs && grade in GrantedGrades(configs[subject])) {
      assert GrantedGrades(r[subject])
          == (if subject in configs then GrantedGrades(configs[subject]) else []) + [grade];
      assert g in GrantedGrades(r[subject]) <==>
             (subject in configs && g in GrantedGrades(configs[subject])) || g == grade;
    }
  }

  /** Granting twice is granting once. */
  lemma GrantIdempotent(configs: map<string, SubjectConfig>, subject: string, grade: int)
    ensures AddSubjectGradeOverlap(AddSubjectGradeOverlap(configs, subject, grade), subject, grade)
         == AddSubjectGradeOverlap(configs, subject, grade)
  {
    var r := AddSubjectGradeOverlap(configs, subject, grade);
    GrantAllowsExactly(configs, subject, grade, subject, grade);
    assert grade in GrantedGrades(r[subject]);
  }

  /** The grant is a ratchet: nothing allowed before is disallowed after. */
  lemma GrantMonotone(configs: map<string, SubjectConfig>, subject: string, grade: int,
                      s: string, g: int)
    requires OverlapAllowed(configs, s, g)
    ensures OverlapAllowed(AddSubjectGradeOverlap(configs, subject, grade), s, g)
  {
    GrantAllowsExactly(configs, subject, grade, s, g);
  }
}
