/** CategoryService: categories with unique names, and a delete guard while
    any course still belongs to the category. No category operation touches
    a course. */
module CategoryService {
  import opened Common
  import opened Models
  import opened Repositories
  import opened Integrity

  /** createCategory: a taken name is refused; otherwise one category is
      added. */
  function CreateCategory(s: Store, name: string): (r: Step<CategoryId>)
    ensures r.Fail? <==> ExistsByName(s, name)
    ensures r.Fail? ==> r.error == Error(IllegalArgument, DuplicateCategoryName)
    ensures r.Done? ==>
      && r.out == s.nextCategoryId
      && r.store == s.(categories := s.categories[r.out := Category(name)], nextCategoryId := s.nextCategoryId + 1)
    ensures r.Done? ==> r.store.courses == s.courses
  {
    if ExistsByName(s, name) then Fail(Error(IllegalArgument, DuplicateCategoryName))
    else
      var id := s.nextCategoryId;
      Done(s.(categories := s.categories[id := Category(name)], nextCategoryId := id + 1), id)
  }

  /** updateCategory: a missing category is refused; keeping the same name
      always succeeds; a name held by another category is refused. */
  function UpdateCategory(s: Store, id: CategoryId, newName: string): (r: Step<Category>)
    ensures id !in s.categories ==> r == Fail(Error(IllegalArgument, CategoryNotFound))
    ensures id in s.categories && s.categories[id].name == newName ==> r.Done?
    ensures id in s.categories ==>
      (r.Fail? <==> s.categories[id].name != newName && ExistsByName(s, newName))
    ensures id in s.categories && r.Fail? ==> r.error == Error(IllegalArgument, DuplicateCategoryName)
    ensures r.Done? ==> r.out == Category(newName) && r.store == s.(categories := s.categories[id := r.out])
    ensures r.Done? ==> r.store.courses == s.courses
  {
    if id !in s.categories then Fail(Error(IllegalArgument, CategoryNotFound))
    else if s.categories[id].name != newName && ExistsByName(s, newName) then
      Fail(Error(IllegalArgument, DuplicateCategoryName))
    else Done(s.(categories := s.categories[id := Category(newName)]), Category(newName))
  }

  /** deleteCategory: a missing category is refused; a category that any
      course refers to is refused; otherwise only that category goes. */
  function DeleteCategory(s: Store, id: CategoryId): (r: Step<()>)
    ensures id !in s.categories ==> r == Fail(Error(IllegalArgument, CategoryNotFound))
    ensures id in s.categories ==>
      (r.Fail? <==> exists c | c in s.courses :: s.courses[c].categoryId == id)
    ensures id in s.categories && r.Fail? ==> r.error == Error(IllegalState, CategoryHasCourses)
    ensures r.Done? ==> r.store == s.(categories := s.categories - {id})
    ensures r.Done? ==> r.store.courses == s.courses
  {
    if id !in s.categories then Fail(Error(IllegalArgument, CategoryNotFound))
    else if (FindByCategoryIdEmpty(s, id); FindByCategoryId(s, id) != map[]) then
      Fail(Error(IllegalState, CategoryHasCourses))
    else Done(s.(categories := s.categories - {id}), ())
  }

  /** In a valid store, a rename fails exactly when a different category
      already has the new name. */
  lemma UpdateCategoryFailsIffNameTakenByOther(s: Store, id: CategoryId, newName: string)
    requires Valid(s) && id in s.categories
    ensures UpdateCategory(s, id, newName).Fail? <==>
      exists c | c in s.categories :: c != id && s.categories[c].name == newName
  {
  }

  // ---- Invariants

  lemma CreateCategoryPreservesValid(s: Store, name: string)
    requires Valid(s)
    ensures CreateCategory(s, name).Done? ==> Valid(CreateCategory(s, name).store)
  {
  }

  lemma UpdateCategoryPreservesValid(s: Store, id: CategoryId, newName: string)
    requires Valid(s)
    ensures UpdateCategory(s, id, newName).Done? ==> Valid(UpdateCategory(s, id, newName).store)
  {
  }

  /** Deleting a category never orphans a course. */
  lemma DeleteCategoryPreservesValid(s: Store, id: CategoryId)
    requires Valid(s)
    ensures DeleteCategory(s, id).Done? ==> Valid(DeleteCategory(s, id).store)
  {
  }
}
